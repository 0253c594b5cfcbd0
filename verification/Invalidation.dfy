/** What invalidating a key achieves when other calls run beside it. A history lists the effects of all
    calls in the order in which they took place. */
module Invalidation {
  import opened Vocabulary
  import opened MultiLevel
  import L = LocalCache
  import B = Breaker

  predicate ForgetsKey(e: Event, key: Key) {
    e.Forgot? && key in e.keys
  }

  predicate RemovesKey(e: Event, key: Key) {
    e.Removed? && key in e.keys
  }

  // ---- Exactly when a key is present ----

  /** The i-th later event puts the key into the local cache, and nothing takes it out again. */
  ghost predicate KeptForGood(c: Settings, base: seq<Event>, later: seq<Event>, key: Key, i: int) {
    && 0 <= i < |later| && later[i].Kept? && later[i].key == key
    && !L.Drops(c.local, After(c, base + later[..i]).local, key)
    && forall j | i < j < |later| :: !ForgetsKey(later[j], key)
  }

  ghost predicate StoredForGood(later: seq<Event>, key: Key, i: int) {
    && 0 <= i < |later| && later[i].Stored? && later[i].key == key
    && forall j | i < j < |later| :: !RemovesKey(later[j], key)
  }

  lemma {:induction false} LocalHasIff(c: Settings, base: seq<Event>, later: seq<Event>, key: Key)
    ensures key in After(c, base + later).local <==>
      || (key in After(c, base).local && forall j | 0 <= j < |later| :: !ForgetsKey(later[j], key))
      || exists i :: KeptForGood(c, base, later, key, i)
    decreases |later|
  {
    if later == [] {
      assert base + later == base;
    } else {
      hide L.Drops;
      var earlier, e := Init(later), Last(later);
      LocalHasIff(c, base, earlier, key);
      LocalStep(c, base + earlier, e, key);
      assert base + later == base + earlier + [e];
      KeptStep(c, base, earlier, e, key);
      assert later == earlier + [e];
    }
  }

  lemma LocalStep(c: Settings, before: seq<Event>, e: Event, key: Key)
    ensures key in After(c, before + [e]).local <==>
      || (e.Kept? && e.key == key && !L.Drops(c.local, After(c, before).local, key))
      || (key in After(c, before).local && !ForgetsKey(e, key))
  {
    hide L.Drops;
    assert Init(before + [e]) == before;
    if e.Kept? {
      L.EffectOnKey(c.local, After(c, before).local, L.Set(e.now, e.key, e.value), key);
      DropsOnlyNew(c, After(c, before).local, key);
    }
  }

  lemma DropsOnlyNew(c: Settings, m: L.Items, key: Key)
    ensures key in m ==> !L.Drops(c.local, m, key)
  {
  }

  lemma KeptStep(c: Settings, base: seq<Event>, earlier: seq<Event>, e: Event, key: Key)
    ensures (exists i :: KeptForGood(c, base, earlier + [e], key, i)) <==>
      || (e.Kept? && e.key == key && !L.Drops(c.local, After(c, base + earlier).local, key))
      || (!ForgetsKey(e, key) && exists i :: KeptForGood(c, base, earlier, key, i))
  {
    hide L.Drops, After;
    var later, n := earlier + [e], |earlier|;
    assert later[..n] == earlier && later[n] == e;
    assert forall i | 0 <= i < n :: later[..i] == earlier[..i] && later[i] == earlier[i];
    if i :| KeptForGood(c, base, later, key, i) {
      if i < n {
        assert KeptForGood(c, base, earlier, key, i);
      }
    }
    if e.Kept? && e.key == key && !L.Drops(c.local, After(c, base + earlier).local, key) {
      assert KeptForGood(c, base, later, key, n);
    }
    if !ForgetsKey(e, key) {
      forall i | KeptForGood(c, base, earlier, key, i) ensures KeptForGood(c, base, later, key, i) {
      }
    }
  }

  lemma {:induction false} RedisHasIff(c: Settings, base: seq<Event>, later: seq<Event>, key: Key)
    ensures key in After(c, base + later).redis <==>
      || (key in After(c, base).redis && forall j | 0 <= j < |later| :: !RemovesKey(later[j], key))
      || exists i :: StoredForGood(later, key, i)
    decreases |later|
  {
    hide L.Apply, B.Next;
    if later == [] {
      assert base + later == base;
    } else {
      var earlier, e := Init(later), Last(later);
      RedisHasIff(c, base, earlier, key);
      assert Init(base + later) == base + earlier;
      StoredStep(earlier, e, key);
      assert later == earlier + [e];
    }
  }

  lemma StoredStep(earlier: seq<Event>, e: Event, key: Key)
    ensures (exists i :: StoredForGood(earlier + [e], key, i)) <==>
      || (e.Stored? && e.key == key)
      || (!RemovesKey(e, key) && exists i :: StoredForGood(earlier, key, i))
  {
    var later, n := earlier + [e], |earlier|;
    assert later[n] == e && forall j | 0 <= j < n :: later[j] == earlier[j];
    if i :| StoredForGood(later, key, i) {
      if i < n {
        assert StoredForGood(earlier, key, i);
      }
    }
    if e.Stored? && e.key == key {
      assert StoredForGood(later, key, n);
    }
    if !RemovesKey(e, key) {
      forall i | StoredForGood(earlier, key, i) ensures StoredForGood(later, key, i) {
      }
    }
  }

  /** After the local cache forgot a key, it holds the key again exactly when a later write kept it for good. */
  lemma ForgottenIff(c: Settings, before: seq<Event>, keys: set<Key>, later: seq<Event>, key: Key)
    requires key in keys
    ensures key in After(c, before + [Forgot(keys)] + later).local <==>
            exists i :: KeptForGood(c, before + [Forgot(keys)], later, key, i)
  {
    LocalHasIff(c, before + [Forgot(keys)], later, key);
    assert Init(before + [Forgot(keys)]) == before;
  }

  /** A removal that took effect is undone exactly by a later write that took effect. */
  lemma RemovedIff(c: Settings, before: seq<Event>, keys: set<Key>, later: seq<Event>, key: Key)
    requires key in keys
    ensures key in After(c, before + [Removed(keys)] + later).redis <==> exists i :: StoredForGood(later, key, i)
  {
    RedisHasIff(c, before + [Removed(keys)], later, key);
    assert Init(before + [Removed(keys)]) == before;
  }

  // ---- How old the value can be that comes back ----

  predicate NotBefore(e: Event, time: int) {
    (e.Begin? || e.Kept? || e.Stored? || e.Fetched?) ==> e.now >= time
  }

  /** After Redis removed a key, what it holds under that key was handed to Set by a caller not more than
      one call before the removal. */
  lemma {:induction false} RedisRefill(c: Settings, lag: nat, history: seq<Event>, r: nat, time: int, key: Key)
    requires Causal(c, lag, history) && r < |history| && RemovesKey(history[r], key)
    requires forall i | r < i < |history| :: NotBefore(history[i], time)
    ensures key in After(c, history).redis ==> Began(history, key, After(c, history).redis[key].value, time - lag)
    decreases |history|
  {
    hide Causal, Began, L.Apply, B.Next;
    var before, e := Init(history), Last(history);
    assert history == before + [e];
    CausalStep(c, lag, history);
    if r < |history| - 1 && key in After(c, history).redis {
      var value := After(c, history).redis[key].value;
      if e.Stored? && e.key == key {
        BeganEarlier(before, key, value, e.now - lag, time - lag);
      } else {
        RedisRefill(c, lag, before, r, time, key);
      }
      BeganLater(before, e, key, value, time - lag);
    }
  }

  /** A Get that had its answer from Redis before event `r`, at `time` or later. */
  ghost predicate FetchedBefore(history: seq<Event>, r: int, key: Key, value: Bytes, time: int) {
    exists m | 0 <= m < r && m < |history| :: history[m].Fetched? && history[m].key == key && history[m].value == value
                        && history[m].now >= time
  }

  /** After both levels dropped a key, what the local cache holds under that key was handed to Set by a
      caller not more than one call before, or kept by a Get that was under way across the removal. */
  lemma {:induction false} LocalRefill(c: Settings, lag: nat, history: seq<Event>, f: nat, r: nat, time: int, key: Key)
    requires Causal(c, lag, history) && f < r < |history| && ForgetsKey(history[f], key) && RemovesKey(history[r], key)
    requires forall i | f < i < |history| :: NotBefore(history[i], time)
    ensures key in After(c, history).local ==>
      var value := After(c, history).local[key].value;
      Began(history, key, value, time - lag) || FetchedBefore(history, r, key, value, time - lag)
  {
    LocalRefillUpTo(c, lag, history, f, r, time, key, |history|);
    assert history[..|history|] == history;
  }

  lemma {:induction false} LocalRefillUpTo(c: Settings, lag: nat, history: seq<Event>, f: nat, r: nat, time: int,
                                           key: Key, n: nat)
    requires Causal(c, lag, history) && f < r < |history| && ForgetsKey(history[f], key) && RemovesKey(history[r], key)
    requires forall i | f < i < |history| :: NotBefore(history[i], time)
    requires f < n <= |history|
    ensures key in After(c, history[..n]).local ==>
      var value := After(c, history[..n]).local[key].value;
      Began(history, key, value, time - lag) || FetchedBefore(history, r, key, value, time - lag)
    decreases n
  {
    hide Causal, Began, FetchedBefore, WasFetched, B.Next, L.Apply;
    var here, before, e := history[..n], history[..n - 1], history[n - 1];
    assert Init(here) == before && Last(here) == e;
    CausalPrefix(c, lag, history, n);
    CausalStep(c, lag, here);
    if n - 1 > f && key in After(c, here).local {
      if e.Kept? {
        L.EffectOnKey(c.local, After(c, before).local, L.Set(e.now, e.key, e.value), key);
      }
      if key in After(c, before).local && After(c, before).local[key] == After(c, here).local[key] {
        LocalRefillUpTo(c, lag, history, f, r, time, key, n - 1);
      } else {
        assert e.Kept? && e.key == key && After(c, here).local[key].value == e.value;
        KeptComesFrom(c, lag, history, r, time, key, n - 1);
      }
    }
  }

  lemma {:induction false} CausalPrefix(c: Settings, lag: nat, history: seq<Event>, n: nat)
    requires Causal(c, lag, history) && n <= |history|
    ensures Causal(c, lag, history[..n])
    decreases |history|
  {
    if n == |history| {
      assert history[..n] == history;
    } else {
      CausalPrefix(c, lag, Init(history), n);
      assert Init(history)[..n] == history[..n];
    }
  }

  lemma BeganInPrefix(history: seq<Event>, n: nat, key: Key, value: Bytes, from: int)
    requires n <= |history| && Began(history[..n], key, value, from)
    ensures Began(history, key, value, from)
  {
    assert forall e <- history[..n] :: e in history;
  }

  lemma KeptComesFrom(c: Settings, lag: nat, history: seq<Event>, r: nat, time: int, key: Key, i: nat)
    requires Causal(c, lag, history) && r < |history| && RemovesKey(history[r], key)
    requires forall x | r < x < |history| :: NotBefore(history[x], time)
    requires i < |history| && history[i].Kept? && history[i].key == key && history[i].now >= time
    ensures Began(history, key, history[i].value, time - lag)
         || FetchedBefore(history, r, key, history[i].value, time - lag)
  {
    hide Causal, Began;
    var e := history[i];
    CausalPrefix(c, lag, history, i + 1);
    CausalStep(c, lag, history[..i + 1]);
    assert Init(history[..i + 1]) == history[..i];
    if Began(history[..i], key, e.value, e.now - lag) {
      BeganInPrefix(history, i, key, e.value, e.now - lag);
      BeganEarlier(history, key, e.value, e.now - lag, time - lag);
    } else {
      var g :| g in history[..i] && g.Fetched? && g.key == key && g.value == e.value && g.now >= e.now - lag;
      var m :| 0 <= m < i && history[m] == g;
      if m < r {
        assert FetchedBefore(history, r, key, e.value, time - lag);
      } else {
        AnsweredSince(c, lag, history, r, time, m);
      }
    }
  }

  /** What Redis answers after the removal is as young as what it holds. */
  lemma AnsweredSince(c: Settings, lag: nat, history: seq<Event>, r: nat, time: int, m: nat)
    requires Causal(c, lag, history) && r < m < |history|
    requires history[m].Fetched? && RemovesKey(history[r], history[m].key)
    requires forall x | r < x < |history| :: NotBefore(history[x], time)
    ensures Began(history, history[m].key, history[m].value, time - lag)
  {
    hide Causal, Began, After;
    CausalPrefix(c, lag, history, m + 1);
    CausalStep(c, lag, history[..m + 1]);
    assert Init(history[..m + 1]) == history[..m];
    assert history[..m][r] == history[r];
    RedisRefill(c, lag, history[..m], r, time, history[m].key);
    BeganInPrefix(history, m, history[m].key, history[m].value, time - lag);
  }

  // ---- Calls that overlap ----

  /** A Get that fetched just before an invalidation keeps the old value just after it: the key is
      readable again although both levels dropped it, with calls that take no time at all. */
  lemma OverlappingGetRefills(c: Settings, key: Key, value: Bytes, now: int)
    requires c.redisTtl >= 0 && c.local.ttl >= 0
    ensures var history := [Begin(key, value, now), Stored(key, value, now), Fetched(key, value, now),
                            Forgot({key}), Removed({key}), Kept(key, value, now)];
      Causal(c, 0, history) && L.Read(After(c, history).local, key, now) == Some(value)
  {
    hide Causal, After, L.Drops;
    var h3 := [Begin(key, value, now), Stored(key, value, now), Fetched(key, value, now)];
    var h5 := h3 + [Forgot({key}), Removed({key})];
    FetchHappens(c, key, value, now);
    InvalidationHappens(c, h3, key);
    assert h5[2] in h5 && WasFetched(h5, key, value, now);
    Extend(c, 0, h5, Kept(key, value, now));
    NoDropWhenEmpty(c, key);
    L.EffectOnKey(c.local, map[], L.Set(now, key, value), key);
    assert h5 + [Kept(key, value, now)] == [Begin(key, value, now), Stored(key, value, now), Fetched(key, value, now),
                                            Forgot({key}), Removed({key}), Kept(key, value, now)];
  }

  lemma FetchHappens(c: Settings, key: Key, value: Bytes, now: int)
    requires c.redisTtl >= 0
    ensures var history := [Begin(key, value, now), Stored(key, value, now), Fetched(key, value, now)];
            Causal(c, 0, history) && After(c, history).local == map[]
  {
    hide Causal, After, L.Apply;
    var h1 := [Begin(key, value, now)];
    var h2 := h1 + [Stored(key, value, now)];
    assert Causal(c, 0, []) && After(c, []).local == map[] by { EmptyHistory(c); }
    Extend(c, 0, [], Begin(key, value, now));
    assert [] + [Begin(key, value, now)] == h1;
    assert h1[0] in h1 && Began(h1, key, value, now);
    Extend(c, 0, h1, Stored(key, value, now));
    Extend(c, 0, h2, Fetched(key, value, now));
    assert h2 + [Fetched(key, value, now)]
        == [Begin(key, value, now), Stored(key, value, now), Fetched(key, value, now)];
  }

  lemma EmptyHistory(c: Settings)
    ensures Causal(c, 0, []) && After(c, []).local == map[]
  {
  }

  lemma InvalidationHappens(c: Settings, before: seq<Event>, key: Key)
    requires Causal(c, 0, before) && After(c, before).local == map[]
    ensures var history := before + [Forgot({key}), Removed({key})];
            Causal(c, 0, history) && After(c, history).local == map[]
  {
    hide Causal, After, L.Apply;
    Extend(c, 0, before, Forgot({key}));
    Extend(c, 0, before + [Forgot({key})], Removed({key}));
    assert before + [Forgot({key})] + [Removed({key})] == before + [Forgot({key}), Removed({key})];
  }

  lemma NoDropWhenEmpty(c: Settings, key: Key)
    ensures !L.Drops(c.local, map[], key)
  {
    assert L.KeysOf(c.local, map[], L.ShardFor(c.local, key)) == {};
  }
}
