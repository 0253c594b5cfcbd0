/** The in-process cache: 32 shards, each under its own lock, that stand for one bounded map whose
    entries expire. */
module LocalCache {
  import opened Vocabulary

  type Key = string
  type Bytes = seq<bv8>

  datatype Item = Item(value: Bytes, expiredAt: int)

  /** One shard, or the whole cache seen as one map. */
  type Items = map<Key, Item>

  const SHARDS := 32
  const MAX_EVICT_PER_SHARD := 1000

  /** `hash` stands for FNV-1a; nothing here depends on which function it is. */
  datatype Settings = Settings(ttl: int, maxItems: int, hash: Key -> bv32)

  function ShardFor(c: Settings, key: Key): (i: nat)
    ensures i < SHARDS
  {
    ((c.hash(key) & 31) as bv5) as nat
  }

  /** Zero means no limit. The shards together never hold more than asked for, and at most
      31 places are lost to rounding. */
  function PerShardLimit(c: Settings): (limit: nat)
    ensures limit == 0 <==> c.maxItems <= 0
    ensures c.maxItems >= SHARDS ==> limit * SHARDS <= c.maxItems < limit * SHARDS + SHARDS
    ensures 0 < c.maxItems < SHARDS ==> limit == 1
  {
    if c.maxItems <= 0 then 0
    else if c.maxItems < SHARDS then 1
    else c.maxItems / SHARDS
  }

  // ---- The cache as one map ----

  function Read(m: Items, key: Key, now: int): Option<Bytes> {
    if key in m && now <= m[key].expiredAt then Some(m[key].value) else None
  }

  function KeysOf(c: Settings, m: Items, shard: nat): set<Key> {
    set k | k in m && ShardFor(c, k) == shard
  }

  function Matching(c: Settings, m: Items, shard: nat, prefix: Key): set<Key> {
    set k | k in m && ShardFor(c, k) == shard && prefix <= k
  }

  function Expired(c: Settings, m: Items, shard: nat, now: int): set<Key> {
    set k | k in m && ShardFor(c, k) == shard && now > m[k].expiredAt
  }

  /** A full shard turns away keys it does not hold yet. */
  predicate Drops(c: Settings, m: Items, key: Key) {
    PerShardLimit(c) > 0 && |KeysOf(c, m, ShardFor(c, key))| >= PerShardLimit(c) && key !in m
  }

  /** Two keys are kept under the same lock when the last five bits of their hashes agree. */
  predicate SameShard(c: Settings, a: Key, b: Key) {
    c.hash(a) & 31 == c.hash(b) & 31
  }

  lemma ShardsAgree(c: Settings, a: Key, b: Key)
    ensures ShardFor(c, a) == ShardFor(c, b) <==> SameShard(c, a, b)
  {
    var x, y := c.hash(a) & 31, c.hash(b) & 31;
    SameBits(x, y);
    SameNumber(x as bv5, y as bv5);
  }

  lemma SameBits(x: bv32, y: bv32)
    requires x < 32 && y < 32
    ensures x as bv5 == y as bv5 <==> x == y
  {
  }

  lemma SameNumber(x: bv5, y: bv5)
    ensures x as nat == y as nat <==> x == y
  {
  }

  /** The cache accepts a write of this key: it has the key, or its shard has fewer keys than its share of
      the limit, which is one for a limit below 32. */
  ghost predicate HasRoom(c: Settings, m: Items, key: Key) {
    || key in m || c.maxItems <= 0
    || |set k | k in m && SameShard(c, k, key)| < if c.maxItems < 32 then 1 else c.maxItems / 32
  }

  lemma TurnedAwayIffFull(c: Settings, m: Items, key: Key)
    ensures Drops(c, m, key) <==> !HasRoom(c, m, key)
  {
    hide ShardFor, SameShard;
    forall k ensures ShardFor(c, k) == ShardFor(c, key) <==> SameShard(c, k, key) {
      ShardsAgree(c, k, key);
    }
    assert KeysOf(c, m, ShardFor(c, key)) == set k | k in m && SameShard(c, k, key);
  }

  /** What happens under one lock. An eviction cycle over a shard says which keys it picked. */
  datatype Event =
    | Set(now: int, key: Key, value: Bytes)
    | Delete(key: Key)
    | DropPrefix(shard: nat, prefix: Key)
    | Clear(shard: nat)
    | Evict(shard: nat, now: int, picked: set<Key>)

  /** A cycle picks expired keys only, all of them unless there are more than a cycle may take. */
  predicate Possible(c: Settings, m: Items, e: Event) {
    e.Evict? ==>
      var expired := Expired(c, m, e.shard, e.now);
      e.picked <= expired && (e.picked == expired || |e.picked| == MAX_EVICT_PER_SHARD)
  }

  function Apply(c: Settings, m: Items, e: Event): Items {
    match e
    case Set(now, key, value) => if Drops(c, m, key) then m else m[key := Item(value, now + c.ttl)]
    case Delete(key) => m - {key}
    case DropPrefix(shard, prefix) => m - Matching(c, m, shard, prefix)
    case Clear(shard) => m - KeysOf(c, m, shard)
    case Evict(_, _, picked) => m - picked
  }

  function After(c: Settings, history: seq<Event>): Items {
    if history == [] then map[] else Apply(c, After(c, Init(history)), Last(history))
  }

  ghost predicate Run(c: Settings, history: seq<Event>) {
    forall i | 0 <= i < |history| :: Possible(c, After(c, history[..i]), history[i])
  }

  lemma RunPrefix(c: Settings, history: seq<Event>)
    requires Run(c, history) && history != []
    ensures Run(c, Init(history)) && Possible(c, After(c, Init(history)), Last(history))
  {
    assert forall i | 0 <= i < |history| :: Init(history)[..i] == history[..i];
  }

  // ---- What a reader sees ----

  /** The event takes the key out of the cache, expired or not. */
  predicate Forgets(c: Settings, e: Event, key: Key) {
    match e
    case Set(_, _, _) => false
    case Delete(k) => k == key
    case DropPrefix(shard, prefix) => ShardFor(c, key) == shard && prefix <= key
    case Clear(shard) => ShardFor(c, key) == shard
    case Evict(_, _, _) => false
  }

  /** The most recent write of the key, unless the key was deleted since. */
  function LastSet(c: Settings, history: seq<Event>, key: Key): Option<Item> {
    if history == [] then None else
      var e := Last(history);
      if e.Set? && e.key == key then Some(Item(e.value, e.now + c.ttl))
      else if Forgets(c, e, key) then None
      else LastSet(c, Init(history), key)
  }

  /** The same, but leaving out the writes a full shard turned away. */
  function LastStored(c: Settings, history: seq<Event>, key: Key): Option<Item> {
    if history == [] then None else
      var e := Last(history);
      if e.Set? && e.key == key && !Drops(c, After(c, Init(history)), key) then Some(Item(e.value, e.now + c.ttl))
      else if Forgets(c, e, key) then None
      else LastStored(c, Init(history), key)
  }

  function ReadItem(item: Option<Item>, now: int): Option<Bytes> {
    if item.Some? && now <= item.value.expiredAt then Some(item.value.value) else None
  }

  /** No event of the history happened after `now`. */
  predicate Past(history: seq<Event>, now: int) {
    forall e <- history :: (e.Set? || e.Evict?) ==> e.now <= now
  }

  /** What one event means for one key. */
  lemma EffectOnKey(c: Settings, m: Items, e: Event, key: Key)
    ensures var t := Apply(c, m, e);
      if e.Set? && e.key == key && !Drops(c, m, key) then key in t && t[key] == Item(e.value, e.now + c.ttl)
      else if Forgets(c, e, key) || (e.Evict? && key in e.picked) then key !in t
      else if key in m then key in t && t[key] == m[key]
      else key !in t
  {
    hide ShardFor, PerShardLimit;
  }

  /** Whatever is in the cache is what the most recent write of that key put there: a refused write
      never leaves an older value behind. */
  lemma {:induction false} HoldsOnlyLastSet(c: Settings, history: seq<Event>, key: Key)
    ensures key in After(c, history) ==> LastSet(c, history, key) == Some(After(c, history)[key])
  {
    if history != [] {
      HoldsOnlyLastSet(c, Init(history), key);
    }
  }

  /** A read returns nothing, or the value of the most recent write while that is not older than the
      time to live. */
  lemma {:induction false} ReadIsLastSetOrMiss(c: Settings, history: seq<Event>, key: Key, now: int)
    ensures var answer := Read(After(c, history), key, now);
      answer.Some? ==> LastSet(c, history, key).Some? && answer == ReadItem(LastSet(c, history, key), now)
  {
    HoldsOnlyLastSet(c, history, key);
  }

  /** A write that has room can be read back at once and until its lifetime is over. */
  lemma WriteIsRead(c: Settings, history: seq<Event>, key: Key, value: Bytes, now: int, later: int)
    requires HasRoom(c, After(c, history), key)
    ensures Read(After(c, history + [Set(now, key, value)]), key, later)
         == if later <= now + c.ttl then Some(value) else None
  {
    hide HasRoom, Drops;
    assert Init(history + [Set(now, key, value)]) == history;
    TurnedAwayIffFull(c, After(c, history), key);
    EffectOnKey(c, After(c, history), Set(now, key, value), key);
  }

  /** Eviction cannot be observed by readers of stored keys: a read gives what the last write that was not
      turned away put there. (It can make room for later keys.) */
  lemma {:induction false} EvictionIsInvisible(c: Settings, history: seq<Event>, key: Key, now: int)
    requires Run(c, history) && Past(history, now)
    ensures Read(After(c, history), key, now) == ReadItem(LastStored(c, history, key), now)
    ensures key in After(c, history) ==> LastStored(c, history, key) == Some(After(c, history)[key])
  {
    if history != [] {
      hide Apply, Drops, Forgets, Run;
      RunPrefix(c, history);
      EvictionIsInvisible(c, Init(history), key, now);
      EffectOnKey(c, After(c, Init(history)), Last(history), key);
    }
  }

  /** Without a size limit the cache is an exact map with expiry. */
  lemma {:induction false} UnlimitedIsExact(c: Settings, history: seq<Event>, key: Key, now: int)
    requires Run(c, history) && Past(history, now) && c.maxItems <= 0
    ensures Read(After(c, history), key, now) == ReadItem(LastSet(c, history, key), now)
  {
    EvictionIsInvisible(c, history, key, now);
    NothingDropped(c, history, key);
  }

  lemma {:induction false} NothingDropped(c: Settings, history: seq<Event>, key: Key)
    requires c.maxItems <= 0
    ensures LastStored(c, history, key) == LastSet(c, history, key)
  {
    if history != [] {
      NothingDropped(c, Init(history), key);
    }
  }

  // ---- Size ----

  ghost predicate ShardsBounded(c: Settings, m: Items) {
    PerShardLimit(c) > 0 ==> forall i: nat | i < SHARDS :: |KeysOf(c, m, i)| <= PerShardLimit(c)
  }

  lemma SubsetIsSmaller<T>(a: set<T>, b: set<T>)
    requires a <= b
    ensures |a| <= |b|
  {
    assert b == a + (b - a);
  }

  lemma ApplyKeepsBound(c: Settings, m: Items, e: Event)
    requires ShardsBounded(c, m)
    ensures ShardsBounded(c, Apply(c, m, e))
  {
    hide ShardFor, PerShardLimit;
    var t := Apply(c, m, e);
    var added := if e.Set? && !Drops(c, m, e.key) then {e.key} else {};
    assert t.Keys <= m.Keys + added;
    forall i: nat | i < SHARDS && PerShardLimit(c) > 0 ensures |KeysOf(c, t, i)| <= PerShardLimit(c) {
      hide Apply;
      if e.Set? && e.key in added - m.Keys && i == ShardFor(c, e.key) {
        SubsetIsSmaller(KeysOf(c, t, i), KeysOf(c, m, i) + {e.key});
      } else {
        SubsetIsSmaller(KeysOf(c, t, i), KeysOf(c, m, i));
      }
    }
  }

  lemma {:induction false} RunIsBounded(c: Settings, history: seq<Event>)
    ensures ShardsBounded(c, After(c, history))
  {
    if history != [] {
      RunIsBounded(c, Init(history));
      ApplyKeepsBound(c, After(c, Init(history)), Last(history));
    }
  }

  lemma {:induction false} SumOfShards(c: Settings, m: Items, n: nat)
    requires n <= SHARDS && PerShardLimit(c) > 0 && ShardsBounded(c, m)
    ensures |KeysBelow(c, m, n)| <= n * PerShardLimit(c)
  {
    hide ShardFor, PerShardLimit;
    if n == 0 {
      assert KeysBelow(c, m, 0) == {};
    } else {
      SumOfShards(c, m, n - 1);
      assert KeysBelow(c, m, n) == KeysBelow(c, m, n - 1) + KeysOf(c, m, n - 1);
      assert (n - 1) * PerShardLimit(c) + PerShardLimit(c) == n * PerShardLimit(c);
    }
  }

  function KeysBelow(c: Settings, m: Items, n: nat): set<Key> {
    set k | k in m && ShardFor(c, k) < n
  }

  /** The cache never outgrows its limit; a limit below the number of shards still allows one entry a shard. */
  lemma SizeIsBounded(c: Settings, history: seq<Event>)
    requires c.maxItems > 0
    ensures |After(c, history)| <= if c.maxItems >= SHARDS then c.maxItems else SHARDS
  {
    var m := After(c, history);
    RunIsBounded(c, history);
    SumOfShards(c, m, SHARDS);
    assert KeysBelow(c, m, SHARDS) == m.Keys;
  }

  // ---- The shards ----

  /** Every key is in the shard its hash selects. */
  ghost predicate Placed(c: Settings, shards: seq<Items>) {
    |shards| == SHARDS && forall i, k | 0 <= i < SHARDS && k in shards[i] :: ShardFor(c, k) == i
  }

  ghost function Flat(c: Settings, shards: seq<Items>): (m: Items)
    requires Placed(c, shards)
    ensures forall k :: k in m <==> k in shards[ShardFor(c, k)]
    ensures forall k | k in m :: m[k] == shards[ShardFor(c, k)][k]
  {
    map k | k in (set i, k | 0 <= i < SHARDS && k in shards[i] :: k) :: shards[ShardFor(c, k)][k]
  }

  lemma ShardOfFlat(c: Settings, shards: seq<Items>, i: nat)
    requires Placed(c, shards) && i < SHARDS
    ensures KeysOf(c, Flat(c, shards), i) == shards[i].Keys
    ensures forall k | k in shards[i] :: k in Flat(c, shards) && Flat(c, shards)[k] == shards[i][k]
  {
  }

  /** Deleting keys of one shard deletes them from the whole. */
  lemma ShrinkShard(c: Settings, shards: seq<Items>, i: nat, gone: set<Key>)
    requires Placed(c, shards) && i < SHARDS && forall k <- gone :: ShardFor(c, k) == i
    ensures Placed(c, shards[i := shards[i] - gone])
    ensures Flat(c, shards[i := shards[i] - gone]) == Flat(c, shards) - gone
  {
    hide ShardFor, Flat;
    var after := shards[i := shards[i] - gone];
    forall x, k | 0 <= x < SHARDS && k in after[x] ensures ShardFor(c, k) == x {
      assert k in shards[x];
    }
    var before, m := Flat(c, shards), Flat(c, after);
    forall k ensures k in m <==> k in before && k !in gone {
      var x := ShardFor(c, k);
      assert k in after[x] <==> k in shards[x] && k !in gone;
    }
    assert m.Keys == (before - gone).Keys;
  }

  lemma GrowShard(c: Settings, shards: seq<Items>, key: Key, item: Item)
    requires Placed(c, shards)
    ensures var i := ShardFor(c, key);
            Placed(c, shards[i := shards[i][key := item]])
            && Flat(c, shards[i := shards[i][key := item]]) == Flat(c, shards)[key := item]
  {
    hide ShardFor, Flat;
    var i := ShardFor(c, key);
    var after := shards[i := shards[i][key := item]];
    forall x, k | 0 <= x < SHARDS && k in after[x] ensures ShardFor(c, k) == x {
      assert k in shards[x] || k == key;
    }
    var before, m := Flat(c, shards), Flat(c, after);
    forall k ensures k in m <==> k in before || k == key {
      var x := ShardFor(c, k);
      assert k in after[x] <==> k in shards[x] || k == key;
    }
    assert m.Keys == before[key := item].Keys;
  }

  function Gone(c: Settings, before: Items, after: Items, shard: nat): set<Key> {
    set k | k in before && ShardFor(c, k) == shard && k !in after
  }

  /** `after` is `before` less what a cycle over the first `n` shards may have picked. */
  ghost predicate EvictedUpTo(c: Settings, before: Items, after: Items, now: int, n: nat) {
    && after.Keys <= before.Keys
    && (forall k | k in after :: after[k] == before[k])
    && (forall k | k in before && ShardFor(c, k) >= n :: k in after)
    && forall j: nat | j < n :: Possible(c, before, Evict(j, now, Gone(c, before, after, j)))
  }

  lemma EvictOneMore(c: Settings, before: Items, current: Items, now: int, i: nat, picked: set<Key>)
    requires EvictedUpTo(c, before, current, now, i) && Possible(c, current, Evict(i, now, picked))
    ensures EvictedUpTo(c, before, current - picked, now, i + 1)
  {
    hide ShardFor;
    var after := current - picked;
    assert Expired(c, current, i, now) == Expired(c, before, i, now);
    assert Gone(c, before, after, i) == picked;
    forall j: nat | j < i ensures Gone(c, before, after, j) == Gone(c, before, current, j) {
    }
  }

  /** Only expired entries go, and an expired one stays only where a thousand others of its shard went. */
  lemma EvictedMeans(c: Settings, before: Items, after: Items, now: int)
    requires EvictedUpTo(c, before, after, now, SHARDS)
    ensures forall k | k in before && k !in after :: now > before[k].expiredAt
    ensures forall a | a in after && now > after[a].expiredAt ::
              |set k | k in before && k !in after && SameShard(c, k, a)| == 1000
  {
    hide ShardFor, SameShard;
    forall k | k in before && k !in after ensures now > before[k].expiredAt {
      assert Possible(c, before, Evict(ShardFor(c, k), now, Gone(c, before, after, ShardFor(c, k))));
      assert k in Gone(c, before, after, ShardFor(c, k));
    }
    forall a | a in after && now > after[a].expiredAt
      ensures |set k | k in before && k !in after && SameShard(c, k, a)| == 1000
    {
      var gone := Gone(c, before, after, ShardFor(c, a));
      assert Possible(c, before, Evict(ShardFor(c, a), now, gone));
      assert a in Expired(c, before, ShardFor(c, a), now) && a !in gone;
      forall k ensures ShardFor(c, k) == ShardFor(c, a) <==> SameShard(c, k, a) {
        ShardsAgree(c, k, a);
      }
      assert gone == set k | k in before && k !in after && SameShard(c, k, a);
    }
  }

  class LocalCache {
    const shards: array<Items>
    const settings: Settings

    ghost predicate Valid()
      reads this, shards
    {
      Placed(settings, shards[..])
    }

    ghost function View(): Items
      reads this, shards
      requires Valid()
    {
      Flat(settings, shards[..])
    }

    constructor (settings: Settings)
      ensures Valid() && View() == map[] && fresh(shards) && this.settings == settings
    {
      this.settings := settings;
      shards := new Items[SHARDS](_ => map[]);
    }

    method Get(key: Key, now: int) returns (answer: Option<Bytes>)
      requires Valid()
      ensures answer == Read(View(), key, now)
      ensures answer == if key in View() && now <= View()[key].expiredAt then Some(View()[key].value) else None
    {
      var s := shards[ShardFor(settings, key)];
      if key !in s {
        return None;
      }
      if now > s[key].expiredAt {
        return None;
      }
      return Some(s[key].value);
    }

    method Put(key: Key, value: Bytes, now: int)
      requires Valid()
      modifies shards
      ensures Valid() && View() == Apply(settings, old(View()), Set(now, key, value))
      ensures View() == if HasRoom(settings, old(View()), key) then old(View())[key := Item(value, now + settings.ttl)]
                        else old(View())
    {
      hide PerShardLimit, ShardFor, Flat, HasRoom;
      TurnedAwayIffFull(settings, View(), key);
      var i := ShardFor(settings, key);
      var limit := PerShardLimit(settings);
      ShardOfFlat(settings, shards[..], i);
      GrowShard(settings, shards[..], key, Item(value, now + settings.ttl));
      if limit > 0 && |shards[i]| >= limit && key !in shards[i] {
        return;
      }
      shards[i] := shards[i][key := Item(value, now + settings.ttl)];
      assert shards[..] == old(shards[..])[i := shards[i]];
    }

    method Remove(key: Key)
      requires Valid()
      modifies shards
      ensures Valid() && View() == old(View()) - {key}
    {
      hide ShardFor, Flat;
      var i := ShardFor(settings, key);
      ShrinkShard(settings, shards[..], i, {key});
      shards[i] := shards[i] - {key};
      assert shards[..] == old(shards[..])[i := shards[i]];
    }

    /** The body of the loop over the shards in DeleteByPrefix, under that shard's lock. */
    method DropPrefixFrom(i: nat, prefix: Key)
      requires Valid() && i < SHARDS
      modifies shards
      ensures Valid() && View() == Apply(settings, old(View()), DropPrefix(i, prefix))
    {
      hide ShardFor, Flat;
      var items := shards[i];
      var todo := items.Keys;
      var kept := items;
      while todo != {}
        invariant todo <= items.Keys
        invariant kept == items - set k | k in items && k !in todo && prefix <= k
      {
        var k :| k in todo;
        todo := todo - {k};
        if prefix <= k {
          kept := kept - {k};
        }
      }
      shards[i] := kept;
      ShrinkShard(settings, old(shards[..]), i, set k | k in items && prefix <= k);
      assert shards[..] == old(shards[..])[i := kept];
      assert Matching(settings, old(View()), i, prefix) == set k | k in items && prefix <= k;
    }

    method DeleteByPrefix(prefix: Key)
      requires Valid()
      modifies shards
      ensures Valid() && View() == old(View()) - set k | k in old(View()) && prefix <= k
    {
      hide ShardFor, Flat;
      ghost var before := View();
      for i := 0 to SHARDS
        invariant Valid()
        invariant View() == before - set k | k in before && ShardFor(settings, k) < i && prefix <= k
      {
        DropPrefixFrom(i, prefix);
      }
    }

    method InvalidateAll()
      requires Valid()
      modifies shards
      ensures Valid() && View() == map[]
    {
      hide ShardFor, Flat;
      ghost var before := View();
      for i := 0 to SHARDS
        invariant Valid()
        invariant View() == before - set k | k in before && ShardFor(settings, k) < i
      {
        ClearShard(i);
      }
    }

    method ClearShard(i: nat)
      requires Valid() && i < SHARDS
      modifies shards
      ensures Valid() && View() == Apply(settings, old(View()), Clear(i))
    {
      ShardOfFlat(settings, shards[..], i);
      ShrinkShard(settings, shards[..], i, shards[i].Keys);
      shards[i] := map[];
      assert shards[..] == old(shards[..])[i := old(shards[i]) - old(shards[i]).Keys];
    }

    /** The loop over one shard's entries, in any order. */
    static method EvictItems(items: Items, now: int) returns (kept: Items, ghost picked: set<Key>)
      ensures kept == items - picked
      ensures picked <= set k | k in items && now > items[k].expiredAt
      ensures |picked| == MAX_EVICT_PER_SHARD || forall k | k in kept :: now <= kept[k].expiredAt
    {
      var todo := items.Keys;
      var evicted := 0;
      kept, picked := items, {};
      while todo != {}
        invariant todo <= items.Keys && kept == items - picked
        invariant picked <= (set k | k in items && now > items[k].expiredAt) - todo
        invariant |picked| == evicted < MAX_EVICT_PER_SHARD
        invariant forall k | k in kept && k !in todo :: now <= kept[k].expiredAt
      {
        var k :| k in todo;
        todo := todo - {k};
        if now > items[k].expiredAt {
          kept := kept - {k};
          picked := picked + {k};
          evicted := evicted + 1;
          if evicted >= MAX_EVICT_PER_SHARD {
            break;
          }
        }
      }
    }

    /** One shard of an eviction cycle, under that shard's lock. */
    method EvictFrom(i: nat, now: int) returns (ghost picked: set<Key>)
      requires Valid() && i < SHARDS
      modifies shards
      ensures Valid() && View() == Apply(settings, old(View()), Evict(i, now, picked))
      ensures Possible(settings, old(View()), Evict(i, now, picked))
    {
      hide ShardFor, Flat;
      ghost var before := shards[i];
      var kept;
      kept, picked := EvictItems(shards[i], now);
      ShardOfFlat(settings, shards[..], i);
      ShrinkShard(settings, shards[..], i, picked);
      assert Expired(settings, View(), i, now) == set k | k in before && now > before[k].expiredAt;
      shards[i] := kept;
      assert shards[..] == old(shards[..])[i := before - picked];
    }

    /** A whole cycle: from every shard, expired entries only, and all of them unless there are more
        than one cycle may take. */
    method EvictExpired(now: int)
      requires Valid()
      modifies shards
      ensures Valid() && EvictedUpTo(settings, old(View()), View(), now, SHARDS)
      ensures View().Keys <= old(View()).Keys && forall k | k in View() :: View()[k] == old(View())[k]
      ensures forall k | k in old(View()) && k !in View() :: now > old(View())[k].expiredAt
      ensures forall a | a in View() && now > View()[a].expiredAt ::
                |set k | k in old(View()) && k !in View() && SameShard(settings, k, a)| == 1000
    {
      ghost var before := View();
      for i := 0 to SHARDS
        invariant Valid() && EvictedUpTo(settings, before, View(), now, i)
      {
        ghost var current := View();
        ghost var picked := EvictFrom(i, now);
        EvictOneMore(settings, before, current, now, i, picked);
      }
      EvictedMeans(settings, before, View(), now);
    }
  }
}
