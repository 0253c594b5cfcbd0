/** Two cache levels and a breaker. A history lists what happened to the levels, in the order it took
    effect, so it can also interleave calls that overlap in time. */
module MultiLevel {
  import opened Vocabulary
  import L = LocalCache
  import B = Breaker
  import R = RedisStore

  type Key = L.Key
  type Bytes = L.Bytes

  datatype Settings = Settings(local: L.Settings, redisTtl: int, breaker: B.Settings)

  datatype Levels = Levels(local: L.Items, redis: L.Items, breaker: B.Memory)

  datatype Event =
    | Begin(key: Key, value: Bytes, now: int)    // a caller asks to cache a value
    | Kept(key: Key, value: Bytes, now: int)     // a write reaches the local cache
    | Forgot(keys: set<Key>)                     // the local cache loses entries
    | Stored(key: Key, value: Bytes, now: int)   // a write takes effect in Redis
    | Removed(keys: set<Key>)                    // Redis loses entries
    | Fetched(key: Key, value: Bytes, now: int)  // Redis answers a read
    | Noted(e: B.Event)                          // the breaker is asked or told something

  function Apply(c: Settings, s: Levels, e: Event): Levels {
    match e
    case Begin(_, _, _) => s
    case Kept(key, value, now) => s.(local := L.Apply(c.local, s.local, L.Set(now, key, value)))
    case Forgot(keys) => s.(local := s.local - keys)
    case Stored(key, value, now) => s.(redis := s.redis[key := L.Item(value, now + c.redisTtl)])
    case Removed(keys) => s.(redis := s.redis - keys)
    case Fetched(_, _, _) => s
    case Noted(b) => s.(breaker := B.Next(c.breaker, s.breaker, b))
  }

  function After(c: Settings, history: seq<Event>): Levels {
    if history == [] then Levels(map[], map[], B.Fresh()) else Apply(c, After(c, Init(history)), Last(history))
  }

  /** A caller asked to cache this value at time `from` or later. */
  ghost predicate Began(history: seq<Event>, key: Key, value: Bytes, from: int) {
    exists e <- history :: e.Begin? && e.key == key && e.value == value && e.now >= from
  }

  ghost predicate WasFetched(history: seq<Event>, key: Key, value: Bytes, from: int) {
    exists e <- history :: e.Fetched? && e.key == key && e.value == value && e.now >= from
  }

  /** Why an event may follow a history. One call lasts at most `lag`: a write comes from a caller, or
      for the local cache also from an answer of Redis, that is not older than that. */
  ghost predicate Caused(c: Settings, lag: nat, before: seq<Event>, e: Event) {
    match e
    case Kept(key, value, now) => Began(before, key, value, now - lag) || WasFetched(before, key, value, now - lag)
    case Stored(key, value, now) => Began(before, key, value, now - lag)
    case Fetched(key, value, now) => L.Read(After(c, before).redis, key, now) == Some(value)
    case _ => true
  }

  ghost predicate Causal(c: Settings, lag: nat, history: seq<Event>) {
    history == [] || (Causal(c, lag, Init(history)) && Caused(c, lag, Init(history), Last(history)))
  }

  lemma BeganLater(history: seq<Event>, e: Event, key: Key, value: Bytes, from: int)
    ensures Began(history, key, value, from) ==> Began(history + [e], key, value, from)
    ensures WasFetched(history, key, value, from) ==> WasFetched(history + [e], key, value, from)
  {
    assert forall x <- history :: x in history + [e];
  }

  lemma BeganEarlier(history: seq<Event>, key: Key, value: Bytes, late: int, early: int)
    requires Began(history, key, value, late) && early <= late
    ensures Began(history, key, value, early)
  {
  }

  // ---- Age ----

  ghost predicate TracedAt(c: Settings, lag: nat, history: seq<Event>, key: Key, item: L.Item) {
    Began(history, key, item.value, item.expiredAt - c.redisTtl - lag)
  }

  /** Every entry of Redis, and every answer it ever gave, goes back to a caller. */
  ghost predicate RedisTraced(c: Settings, lag: nat, history: seq<Event>) {
    var redis := After(c, history).redis;
    && (forall key | key in redis :: TracedAt(c, lag, history, key, redis[key]))
    && (forall e <- history :: e.Fetched? ==> Began(history, e.key, e.value, e.now - c.redisTtl - lag))
  }

  lemma {:induction false} RedisHoldsWrites(c: Settings, lag: nat, history: seq<Event>)
    requires Causal(c, lag, history)
    ensures RedisTraced(c, lag, history)
  {
    if history != [] {
      hide Causal;
      var before, e := Init(history), Last(history);
      assert history == before + [e];
      assert Causal(c, lag, before) && Caused(c, lag, before, e) by { CausalStep(c, lag, history); }
      RedisHoldsWrites(c, lag, before);
      RedisStep(c, lag, before, e);
    }
  }

  lemma RedisStep(c: Settings, lag: nat, before: seq<Event>, e: Event)
    requires RedisTraced(c, lag, before) && Caused(c, lag, before, e)
    ensures RedisTraced(c, lag, before + [e])
  {
    hide Began, L.Apply, B.Next;
    assert Init(before + [e]) == before;
    var held, holds := After(c, before).redis, After(c, before + [e]).redis;
    forall key | key in holds ensures TracedAt(c, lag, before + [e], key, holds[key]) {
      if key in held && held[key] == holds[key] {
        assert TracedAt(c, lag, before, key, held[key]);
      }
      BeganLater(before, e, key, holds[key].value, holds[key].expiredAt - c.redisTtl - lag);
    }
    if e.Fetched? {
      assert TracedAt(c, lag, before, e.key, held[e.key]);
      BeganEarlier(before, e.key, e.value, held[e.key].expiredAt - c.redisTtl - lag, e.now - c.redisTtl - lag);
    }
    forall f <- before + [e] | f.Fetched? ensures Began(before + [e], f.key, f.value, f.now - c.redisTtl - lag) {
      BeganLater(before, e, f.key, f.value, f.now - c.redisTtl - lag);
    }
  }

  lemma CausalStep(c: Settings, lag: nat, history: seq<Event>)
    requires Causal(c, lag, history) && history != []
    ensures Causal(c, lag, Init(history)) && Caused(c, lag, Init(history), Last(history))
  {
  }

  /** The oldest a caller's request can be when an entry that expires at `expiredAt` is still there. */
  function Oldest(c: Settings, lag: nat, expiredAt: int): int {
    expiredAt - c.local.ttl - c.redisTtl - 2 * lag
  }

  /** Every entry of the local cache goes back to a caller, although a read from Redis gives an old
      value a full new lifetime. */
  lemma {:induction false} LocalHoldsWrites(c: Settings, lag: nat, history: seq<Event>, key: Key)
    requires Causal(c, lag, history) && c.redisTtl >= 0 && key in After(c, history).local
    ensures var item := After(c, history).local[key];
            Began(history, key, item.value, Oldest(c, lag, item.expiredAt))
  {
    hide Causal;
    CausalStep(c, lag, history);
    var before, e := Init(history), Last(history);
    var s := After(c, before);
    var item := After(c, history).local[key];
    assert history == before + [e];
    var from := Oldest(c, lag, item.expiredAt);
    if e.Kept? {
      L.EffectOnKey(c.local, s.local, L.Set(e.now, e.key, e.value), key);
    }
    if key in s.local && s.local[key] == item {
      LocalHoldsWrites(c, lag, before, key);
    } else {
      assert e.Kept? && e.key == key && item == L.Item(e.value, e.now + c.local.ttl);
      if Began(before, key, e.value, e.now - lag) {
        BeganEarlier(before, key, e.value, e.now - lag, from);
      } else {
        RedisHoldsWrites(c, lag, before);
        var f :| f in before && f.Fetched? && f.key == key && f.value == e.value && f.now >= e.now - lag;
        BeganEarlier(before, key, e.value, f.now - c.redisTtl - lag, from);
      }
    }
    BeganLater(before, e, key, item.value, from);
  }

  /** However calls overlap and whatever Redis and the breaker do: a value read locally was handed to
      Set, at most both lifetimes ago plus the duration of two calls. */
  lemma LocalAnswerIsYoung(c: Settings, lag: nat, history: seq<Event>, key: Key, now: int)
    requires Causal(c, lag, history) && c.redisTtl >= 0
    ensures var answer := L.Read(After(c, history).local, key, now);
      answer.Some? ==> Began(history, key, answer.value, now - (c.local.ttl + c.redisTtl + 2 * lag))
  {
    if L.Read(After(c, history).local, key, now).Some? {
      LocalHoldsWrites(c, lag, history, key);
      var item := After(c, history).local[key];
      BeganEarlier(history, key, item.value, Oldest(c, lag, item.expiredAt), Oldest(c, lag, now));
    }
  }

  // ---- The breaker sees every call ----

  function BreakerEvents(history: seq<Event>): seq<B.Event> {
    if history == [] then []
    else BreakerEvents(Init(history)) + if Last(history).Noted? then [Last(history).e] else []
  }

  lemma BreakerEventsSnoc(history: seq<Event>, e: Event)
    ensures BreakerEvents(history + [e]) == BreakerEvents(history) + if e.Noted? then [e.e] else []
  {
    assert Init(history + [e]) == history;
  }

  /** The breaker's own theorems hold of the breaker inside the cache. */
  lemma {:induction false} BreakerFollowsHistory(c: Settings, history: seq<Event>)
    ensures After(c, history).breaker == B.After(c.breaker, BreakerEvents(history))
  {
    hide B.Next, L.Apply;
    if history != [] {
      BreakerFollowsHistory(c, Init(history));
      var earlier := BreakerEvents(Init(history));
      if Last(history).Noted? {
        assert Init(BreakerEvents(history)) == earlier;
      } else {
        assert BreakerEvents(history) == earlier;
      }
    }
  }

  // ---- Calls ----

  /** What one Get does when no other call runs beside it. A miss in Redis tells the breaker nothing. */
  function GetEvents(c: Settings, s: Levels, key: Key, start: int, fetch: int, finish: int,
                     reply: R.Reply): seq<Event>
  {
    if L.Read(s.local, key, start).Some? then []
    else [Noted(B.Allow(start))] +
         if !B.Admits(c.breaker, s.breaker, start) then []
         else ReplyEvents(key, fetch, finish, reply)
  }

  function ReplyEvents(key: Key, fetch: int, finish: int, reply: R.Reply): seq<Event> {
    match reply
    case Value(v) => [Fetched(key, v, fetch), Noted(B.Success), Kept(key, v, finish)]
    case Nil => []
    case Failed => [Noted(B.Failure(finish))]
  }

  function SetEvents(c: Settings, s: Levels, key: Key, value: Bytes, start: int, finish: int,
                     outcome: R.Outcome): seq<Event>
  {
    [Begin(key, value, start), Kept(key, value, start), Noted(B.Allow(start))] +
    if !B.Admits(c.breaker, s.breaker, start) then []
    else StoreEvents(key, value, finish, outcome)
  }

  function StoreEvents(key: Key, value: Bytes, finish: int, outcome: R.Outcome): seq<Event> {
    (if outcome.Undone? then [] else [Stored(key, value, finish)]) + Report(outcome.Confirmed?, finish)
  }

  function Report(ok: bool, now: int): seq<Event> {
    [Noted(if ok then B.Success else B.Failure(now))]
  }

  function InvalidateEvents(c: Settings, s: Levels, local: set<Key>, redis: set<Key>, start: int, finish: int,
                            ok: bool): seq<Event>
  {
    [Forgot(local), Noted(B.Allow(start))] +
    if !B.Admits(c.breaker, s.breaker, start) then [] else [Removed(redis)] + Report(ok, finish)
  }

  function ApplyAll(c: Settings, s: Levels, events: seq<Event>): Levels {
    if events == [] then s else Apply(c, ApplyAll(c, s, Init(events)), Last(events))
  }

  lemma {:induction false} AfterAppend(c: Settings, history: seq<Event>, more: seq<Event>)
    ensures After(c, history + more) == ApplyAll(c, After(c, history), more)
    decreases |more|
  {
    if more == [] {
      assert history + more == history;
    } else {
      AfterAppend(c, history, Init(more));
      assert Init(history + more) == history + Init(more);
    }
  }

  lemma {:induction false} ApplyAppend(c: Settings, s: Levels, first: seq<Event>, second: seq<Event>)
    ensures ApplyAll(c, s, first + second) == ApplyAll(c, ApplyAll(c, s, first), second)
    decreases |second|
  {
    if second == [] {
      assert first + second == first;
    } else {
      ApplyAppend(c, s, first, Init(second));
      assert Init(first + second) == first + Init(second);
    }
  }

  lemma ApplyTwo(c: Settings, s: Levels, a: Event, b: Event)
    ensures ApplyAll(c, s, [a, b]) == Apply(c, Apply(c, s, a), b)
  {
    hide B.Next, L.Apply;
    assert Init([a, b]) == [a] && Init([a]) == [];
    assert ApplyAll(c, s, [a]) == Apply(c, s, a);
  }

  /** At the end of a call that ran alone, an invalidated key is gone locally, and Redis still answers for
      it exactly if it did before and the breaker refused the deletion or Redis did not carry it out. What
      calls beside it can do is the subject of module Invalidation. */
  lemma InvalidatedAlone(c: Settings, s: Levels, key: Key, start: int, finish: int, outcome: R.Outcome, now: int)
    ensures var t := ApplyAll(c, s, InvalidateEvents(c, s, {key}, if outcome.Undone? then {} else {key},
                                                     start, finish, outcome.Confirmed?));
      && L.Read(t.local, key, now) == None
      && (L.Read(t.redis, key, now).Some?
          <==> L.Read(s.redis, key, now).Some? && (!B.Admits(c.breaker, s.breaker, start) || outcome.Undone?))
  {
    hide B.Next, B.Admits;
    var first := [Forgot({key}), Noted(B.Allow(start))];
    var s1 := ApplyAll(c, s, first);
    ApplyTwo(c, s, Forgot({key}), Noted(B.Allow(start)));
    if B.Admits(c.breaker, s.breaker, start) {
      var gone := if outcome.Undone? then {} else {key};
      var second := [Removed(gone)] + Report(outcome.Confirmed?, finish);
      ApplyAppend(c, s, first, second);
      ApplyTwo(c, s1, Removed(gone), Report(outcome.Confirmed?, finish)[0]);
      assert second == [Removed(gone), Report(outcome.Confirmed?, finish)[0]];
    } else {
      assert first + [] == first;
    }
  }

  /** A miss in Redis, like a call the breaker refuses, counts neither as a failure nor as a success: at
      most it makes an open breaker half-open, with no success counted yet. */
  lemma MissesAreNeutral(c: Settings, s: Levels, key: Key, start: int, fetch: int, finish: int)
    ensures var m := ApplyAll(c, s, GetEvents(c, s, key, start, fetch, finish, R.Nil)).breaker;
            && m.failCount == s.breaker.failCount && m.lastFailTime == s.breaker.lastFailTime
            && (m.state.Closed? <==> s.breaker.state.Closed?) && (m.state.Open? ==> s.breaker.state.Open?)
            && m.halfOpenSuccess == if s.breaker.state.Open? && m.state.HalfOpen? then 0 else s.breaker.halfOpenSuccess
  {
    assert Init([Noted(B.Allow(start))]) == [];
  }

  lemma Extend(c: Settings, lag: nat, history: seq<Event>, e: Event)
    ensures After(c, history + [e]) == Apply(c, After(c, history), e)
    ensures Causal(c, lag, history) && Caused(c, lag, history, e) ==> Causal(c, lag, history + [e])
  {
    assert Init(history + [e]) == history;
  }

  /** The same for answers that come straight from Redis, for one call. */
  lemma AnswersAreYoung(c: Settings, lag: nat, history: seq<Event>, key: Key, start: int, fetch: int)
    requires Causal(c, lag, history) && c.redisTtl >= 0 && c.local.ttl >= 0 && start <= fetch
    ensures forall v | L.Read(After(c, history).local, key, start) == Some(v) ||
                       L.Read(After(c, history).redis, key, fetch) == Some(v) ::
              Began(history, key, v, start - (c.local.ttl + c.redisTtl + 2 * lag))
  {
    LocalAnswerIsYoung(c, lag, history, key, start);
    RedisHoldsWrites(c, lag, history);
    var redis := After(c, history).redis;
    if L.Read(redis, key, fetch).Some? {
      assert TracedAt(c, lag, history, key, redis[key]);
      BeganEarlier(history, key, redis[key].value, redis[key].expiredAt - c.redisTtl - lag,
                   start - (c.local.ttl + c.redisTtl + 2 * lag));
    }
  }

  function WithPrefix(m: L.Items, prefix: Key): set<Key> {
    set k | k in m && prefix <= k
  }

  const SECOND := 1_000_000_000

  class MultiLevelCache {
    const local: L.LocalCache
    const redis: R.RedisCache
    const breaker: B.CircuitBreaker
    const lag: nat
    ghost var history: seq<Event>

    ghost function Config(): Settings
      reads this, local, redis, breaker
    {
      Settings(local.settings, redis.ttl, breaker.settings)
    }

    ghost predicate Valid()
      reads this, local, local.shards, redis, breaker
    {
      && local.Valid() && Causal(Config(), lag, history) && redis.ttl >= 0 && local.settings.ttl >= 0
      && After(Config(), history) == Levels(local.View(), redis.entries, breaker.View())
    }

    ghost function View(): Levels
      reads this, local, local.shards, redis, breaker
      requires local.Valid()
    {
      Levels(local.View(), redis.entries, breaker.View())
    }

    /** Trips after five failures, tries again after ten seconds. */
    constructor (local: L.LocalCache, redis: R.RedisCache, lag: nat)
      requires local.Valid() && local.View() == map[] && redis.entries == map[]
      requires local.settings.ttl >= 0 && redis.ttl >= 0
      ensures Valid() && history == [] && fresh(breaker)
      ensures this.local == local && this.redis == redis && this.lag == lag
      ensures breaker.settings == B.Settings(5, 10 * SECOND)
    {
      this.local, this.redis, this.lag := local, redis, lag;
      breaker := new B.CircuitBreaker(5, 10 * SECOND);
      history := [];
    }

    // The single effects a call is made of; each keeps the history in step with the levels.

    ghost method Note(e: Event)
      requires Valid() && (e.Begin? || e.Fetched?) && Caused(Config(), lag, history, e)
      modifies this`history
      ensures Valid() && history == old(history) + [e] && View() == old(View())
      ensures BreakerEvents(history) == BreakerEvents(old(history))
    {
      Extend(Config(), lag, history, e);
      BreakerEventsSnoc(history, e);
      history := history + [e];
    }

    method Admit(now: int) returns (ok: bool)
      requires Valid()
      modifies this`history, breaker
      ensures Valid() && history == old(history) + [Noted(B.Allow(now))]
      ensures ok == B.Admits(breaker.settings, old(View()).breaker, now)
      ensures View().local == old(View()).local && View().redis == old(View()).redis
      ensures BreakerEvents(history) == BreakerEvents(old(history)) + [B.Allow(now)]
    {
      BreakerEventsSnoc(history, Noted(B.Allow(now)));
      Extend(Config(), lag, history, Noted(B.Allow(now)));
      ok := breaker.Admit(now);
      history := history + [Noted(B.Allow(now))];
    }

    method Tell(ok: bool, now: int)
      requires Valid()
      modifies this`history, breaker
      ensures Valid() && history == old(history) + Report(ok, now)
      ensures View().local == old(View()).local && View().redis == old(View()).redis
      ensures BreakerEvents(history) == BreakerEvents(old(history)) + [if ok then B.Success else B.Failure(now)]
    {
      var e := if ok then B.Success else B.Failure(now);
      BreakerEventsSnoc(history, Noted(e));
      Extend(Config(), lag, history, Noted(e));
      if ok {
        breaker.RecordSuccess();
      } else {
        breaker.RecordFailure(now);
      }
      history := history + [Noted(e)];
    }

    method Keep(key: Key, value: Bytes, now: int)
      requires Valid() && Caused(Config(), lag, history, Kept(key, value, now))
      modifies this`history, local.shards
      ensures Valid() && history == old(history) + [Kept(key, value, now)]
      ensures View().redis == old(View()).redis && View().breaker == old(View()).breaker
      ensures View().local == if L.HasRoom(local.settings, old(View()).local, key)
                              then old(View()).local[key := L.Item(value, now + local.settings.ttl)]
                              else old(View()).local
      ensures BreakerEvents(history) == BreakerEvents(old(history))
    {
      hide L.HasRoom;
      Extend(Config(), lag, history, Kept(key, value, now));
      BreakerEventsSnoc(history, Kept(key, value, now));
      local.Put(key, value, now);
      history := history + [Kept(key, value, now)];
    }

    method Store(key: Key, value: Bytes, now: int, outcome: R.Outcome) returns (ok: bool)
      requires Valid() && Began(history, key, value, now - lag)
      modifies this`history, redis
      ensures Valid() && ok == outcome.Confirmed?
      ensures history == old(history) + if outcome.Undone? then [] else [Stored(key, value, now)]
      ensures View().local == old(View()).local && View().breaker == old(View()).breaker
      ensures View().redis == if outcome.Undone? then old(View()).redis
                              else old(View()).redis[key := L.Item(value, now + redis.ttl)]
      ensures BreakerEvents(history) == BreakerEvents(old(history))
    {
      hide L.Apply, B.Next, Began, Causal;
      BreakerEventsSnoc(history, Stored(key, value, now));
      Extend(Config(), lag, history, Stored(key, value, now));
      ok := redis.Put(key, value, now, outcome);
      if !outcome.Undone? {
        history := history + [Stored(key, value, now)];
      }
    }

    /** Second half of Set. */
    method StoreInRedis(key: Key, value: Bytes, now: int, outcome: R.Outcome)
      requires Valid() && Began(history, key, value, now - lag)
      modifies this`history, redis, breaker
      ensures Valid() && history == old(history) + StoreEvents(key, value, now, outcome)
      ensures View().local == old(View()).local
      ensures View().redis == if outcome.Undone? then old(View()).redis
                              else old(View()).redis[key := L.Item(value, now + redis.ttl)]
      ensures BreakerEvents(history)
           == BreakerEvents(old(history)) + [if outcome.Confirmed? then B.Success else B.Failure(now)]
    {
      hide B.Next, L.Apply, Began, After, Causal, Report, BreakerEvents;
      var ok := Store(key, value, now, outcome);
      Tell(ok, now);
    }

    /** Second half of Get. */
    method FetchFromRedis(key: Key, fetch: int, finish: int, broken: bool) returns (answer: R.Reply)
      requires Valid() && fetch <= finish <= fetch + lag
      modifies this`history, local.shards, breaker
      ensures Valid() && answer == R.Answer(redis.entries, key, fetch, broken)
      ensures history == old(history) + ReplyEvents(key, fetch, finish, answer)
      ensures View().redis == old(View()).redis
      ensures View().local == if answer.Value? && L.HasRoom(local.settings, old(View()).local, key)
                              then old(View()).local[key := L.Item(answer.value, finish + local.settings.ttl)]
                              else old(View()).local
      ensures BreakerEvents(history) == BreakerEvents(old(history)) +
                if answer.Value? then [B.Success] else if answer.Failed? then [B.Failure(finish)] else []
    {
      hide B.Next, L.Apply, Began, L.HasRoom, BreakerEvents;
      answer := redis.Get(key, fetch, broken);
      match answer {
        case Nil =>
        case Failed => Tell(false, finish);
        case Value(v) =>
          Note(Fetched(key, v, fetch));
          Tell(true, finish);
          assert history[|old(history)|] == Fetched(key, v, fetch);
          Keep(key, v, finish);
      }
    }

    ghost method Lose(before: Levels, e: Event)
      requires local.Valid() && Causal(Config(), lag, history) && redis.ttl >= 0 && local.settings.ttl >= 0
      requires After(Config(), history) == before && (e.Forgot? || e.Removed?)
      requires View() == Apply(Config(), before, e)
      modifies this`history
      ensures Valid() && history == old(history) + [e] && View() == old(View())
      ensures BreakerEvents(history) == BreakerEvents(old(history))
    {
      Extend(Config(), lag, history, e);
      BreakerEventsSnoc(history, e);
      history := history + [e];
    }

    /** Second half of InvalidateByPrefix. */
    method DropInRedis(prefix: Key, finish: int, pages: seq<(set<Key>, R.Outcome)>) returns (ghost gone: set<Key>)
      requires Valid()
      requires forall p <- pages, k <- p.0 :: prefix <= k
      requires forall k | k in redis.entries && prefix <= k :: exists p <- pages :: k in p.0
      modifies this`history, redis, breaker
      ensures Valid()
      ensures var ok := forall p <- pages :: p.1.Confirmed?;
        && history == old(history) + ([Removed(gone)] + Report(ok, finish))
        && gone <= WithPrefix(old(View()).redis, prefix)
        && (ok ==> gone == WithPrefix(old(View()).redis, prefix))
        && BreakerEvents(history) == BreakerEvents(old(history)) + [if ok then B.Success else B.Failure(finish)]
      ensures View().local == old(View()).local && View().redis == old(View()).redis - gone
    {
      hide B.Next, After, Causal, Report, BreakerEvents;
      ghost var before := View();
      var ok := redis.DeleteByPrefix(prefix, pages);
      gone := before.redis.Keys - redis.entries.Keys;
      assert redis.entries == before.redis - gone;
      Lose(before, Removed(gone));
      Tell(ok, finish);
    }

    /** The local cache first, then Redis if the breaker admits it; an answer of Redis is kept locally. */
    method Get(key: Key, start: int, fetch: int, finish: int, broken: bool) returns (answer: R.Reply)
      requires Valid() && start <= fetch <= finish <= start + lag
      modifies this`history, local.shards, breaker
      ensures Valid()
      ensures var reply := R.Answer(redis.entries, key, fetch, broken);
        && history == old(history) + GetEvents(Config(), old(View()), key, start, fetch, finish, reply)
        && answer == match L.Read(old(View()).local, key, start)
                     case Some(v) => R.Value(v)
                     case None => if B.Admits(breaker.settings, old(View()).breaker, start) then reply else R.Nil
      ensures answer.Value? ==>
        Began(old(history), key, answer.value, start - (local.settings.ttl + redis.ttl + 2 * lag))
      ensures answer ==
        if key in old(View()).local && start <= old(View()).local[key].expiredAt
        then R.Value(old(View()).local[key].value)
        else if !B.Admits(breaker.settings, old(View()).breaker, start) then R.Nil
        else if broken then R.Failed
        else if key in redis.entries && fetch <= redis.entries[key].expiredAt then R.Value(redis.entries[key].value)
        else R.Nil
      ensures View().redis == old(View()).redis
      ensures L.Read(old(View()).local, key, start).Some? ==> View() == old(View())
      ensures L.Read(old(View()).local, key, start).None? ==>
        && View().local == (if answer.Value? && L.HasRoom(local.settings, old(View()).local, key)
                            then old(View()).local[key := L.Item(answer.value, finish + local.settings.ttl)]
                            else old(View()).local)
        && BreakerEvents(history) == BreakerEvents(old(history)) + [B.Allow(start)] +
             if answer.Value? then [B.Success] else if answer.Failed? then [B.Failure(finish)] else []
    {
      hide B.Next, B.Admits, L.Apply, Began, ReplyEvents, After, Causal, L.HasRoom, BreakerEvents;
      AnswersAreYoung(Config(), lag, history, key, start, fetch);
      var found := local.Get(key, start);
      if found.Some? {
        return R.Value(found.value);
      }
      var admitted := Admit(start);
      if !admitted {
        return R.Nil;
      }
      answer := FetchFromRedis(key, fetch, finish, broken);
    }

    /** Both levels, Redis only if the breaker admits it; a failure of Redis is not reported. */
    method Set(key: Key, value: Bytes, start: int, finish: int, outcome: R.Outcome)
      requires Valid() && start <= finish <= start + lag
      modifies this`history, local.shards, redis, breaker
      ensures Valid()
      ensures history == old(history) + SetEvents(Config(), old(View()), key, value, start, finish, outcome)
      ensures View().local == if L.HasRoom(local.settings, old(View()).local, key)
                              then old(View()).local[key := L.Item(value, start + local.settings.ttl)]
                              else old(View()).local
      ensures View().redis == if B.Admits(breaker.settings, old(View()).breaker, start) && !outcome.Undone?
                              then old(View()).redis[key := L.Item(value, finish + redis.ttl)]
                              else old(View()).redis
      ensures BreakerEvents(history) == BreakerEvents(old(history)) + [B.Allow(start)] +
                if !B.Admits(breaker.settings, old(View()).breaker, start) then []
                else [if outcome.Confirmed? then B.Success else B.Failure(finish)]
    {
      hide B.Next, B.Admits, L.Apply, After, Causal, StoreEvents, L.HasRoom, BreakerEvents;
      Note(Begin(key, value, start));
      assert history[|old(history)|] == Begin(key, value, start);
      Keep(key, value, start);
      var admitted := Admit(start);
      if !admitted {
        return;
      }
      assert history[|old(history)|] == Begin(key, value, start);
      StoreInRedis(key, value, finish, outcome);
    }

    method Invalidate(key: Key, start: int, finish: int, outcome: R.Outcome)
      requires Valid()
      modifies this`history, local.shards, redis, breaker
      ensures Valid()
      ensures history == old(history) +
        InvalidateEvents(Config(), old(View()), {key}, if outcome.Undone? then {} else {key},
                         start, finish, outcome.Confirmed?)
      ensures View().local == old(View()).local - {key}
      ensures View().redis == if B.Admits(breaker.settings, old(View()).breaker, start) && !outcome.Undone?
                              then old(View()).redis - {key}
                              else old(View()).redis
      ensures BreakerEvents(history) == BreakerEvents(old(history)) + [B.Allow(start)] +
                if !B.Admits(breaker.settings, old(View()).breaker, start) then []
                else [if outcome.Confirmed? then B.Success else B.Failure(finish)]
    {
      hide B.Next, B.Admits, After, Causal, Report, BreakerEvents;
      local.Remove(key);
      Lose(old(View()), Forgot({key}));
      var admitted := Admit(start);
      if !admitted {
        return;
      }
      ghost var before := View();
      var ok := redis.Remove(key, outcome);
      Lose(before, Removed(if outcome.Undone? then {} else {key}));
      Tell(ok, finish);
    }

    /** Deletes the prefix locally for sure, in Redis as far as the scan got. */
    method InvalidateByPrefix(prefix: Key, start: int, finish: int, pages: seq<(set<Key>, R.Outcome)>)
      returns (ghost gone: set<Key>)
      requires Valid()
      requires forall p <- pages, k <- p.0 :: prefix <= k
      requires forall k | k in redis.entries && prefix <= k :: exists p <- pages :: k in p.0
      modifies this`history, local.shards, redis, breaker
      ensures Valid()
      ensures var ok := forall p <- pages :: p.1.Confirmed?;
        && history == old(history) +
             InvalidateEvents(Config(), old(View()), WithPrefix(old(View()).local, prefix), gone, start, finish, ok)
        && gone <= WithPrefix(old(View()).redis, prefix)
        && (ok && B.Admits(breaker.settings, old(View()).breaker, start) ==>
              gone == WithPrefix(old(View()).redis, prefix))
        && BreakerEvents(history) == BreakerEvents(old(history)) + [B.Allow(start)] +
             if !B.Admits(breaker.settings, old(View()).breaker, start) then []
             else [if ok then B.Success else B.Failure(finish)]
      ensures View().local == old(View()).local - set k | k in old(View()).local && prefix <= k
      ensures View().redis == if B.Admits(breaker.settings, old(View()).breaker, start)
                              then old(View()).redis - gone else old(View()).redis
    {
      hide B.Next, B.Admits, After, Causal, Report, L.Apply, BreakerEvents;
      local.DeleteByPrefix(prefix);
      Lose(old(View()), Forgot(WithPrefix(old(View()).local, prefix)));
      var admitted := Admit(start);
      if !admitted {
        return {};
      }
      gone := DropInRedis(prefix, finish, pages);
    }
  }
}
