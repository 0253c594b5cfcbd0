/** The shared second level: a store with expiry behind a network that can fail at any time. */
module RedisStore {
  import opened Vocabulary
  import opened LocalCache

  datatype Reply = Value(value: Bytes) | Nil | Failed

  /** How one write request went: done and confirmed, done without the confirmation arriving, or not done. */
  datatype Outcome = Confirmed | Unconfirmed | Undone

  function Without(m: Items, prefix: Key): Items {
    m - set k | k in m && prefix <= k
  }

  function Answer(m: Items, key: Key, now: int, broken: bool): Reply {
    if broken then Failed
    else match Read(m, key, now)
      case Some(v) => Value(v)
      case None => Nil
  }

  class RedisCache {
    const ttl: int
    var entries: Items

    constructor (ttl: int)
      ensures entries == map[] && this.ttl == ttl
    {
      this.ttl := ttl;
      entries := map[];
    }

    method Get(key: Key, now: int, broken: bool) returns (reply: Reply)
      ensures reply == Answer(entries, key, now, broken)
      ensures reply == if broken then Failed
                       else if key in entries && now <= entries[key].expiredAt then Value(entries[key].value)
                       else Nil
    {
      if broken {
        return Failed;
      }
      if key in entries && now <= entries[key].expiredAt {
        return Value(entries[key].value);
      }
      return Nil;
    }

    method Put(key: Key, value: Bytes, now: int, outcome: Outcome) returns (ok: bool)
      modifies this
      ensures ok == outcome.Confirmed?
      ensures entries == if outcome.Undone? then old(entries) else old(entries)[key := Item(value, now + ttl)]
    {
      if !outcome.Undone? {
        entries := entries[key := Item(value, now + ttl)];
      }
      return outcome.Confirmed?;
    }

    method Remove(key: Key, outcome: Outcome) returns (ok: bool)
      modifies this
      ensures ok == outcome.Confirmed?
      ensures entries == if outcome.Undone? then old(entries) else old(entries) - {key}
    {
      if !outcome.Undone? {
        entries := entries - {key};
      }
      return outcome.Confirmed?;
    }

    /** Scans page by page and unlinks each page; `pages` are the keys the scan will report, each page
        with the outcome of its pipeline. A failure ends the scan and keeps the rest. */
    method DeleteByPrefix(prefix: Key, pages: seq<(set<Key>, Outcome)>) returns (ok: bool)
      requires forall p <- pages, k <- p.0 :: prefix <= k
      requires forall k | k in entries && prefix <= k :: exists p <- pages :: k in p.0
      modifies this
      ensures entries.Keys <= old(entries).Keys && forall k | k in entries :: entries[k] == old(entries)[k]
      ensures forall k | k in old(entries) && k !in entries :: prefix <= k
      ensures ok == forall p <- pages :: p.1.Confirmed?
      ensures ok ==> entries == Without(old(entries), prefix)
    {
      for i := 0 to |pages|
        invariant entries.Keys <= old(entries).Keys && forall k | k in entries :: entries[k] == old(entries)[k]
        invariant forall k | k in old(entries) && k !in entries :: prefix <= k
        invariant forall j | 0 <= j < i :: pages[j].1.Confirmed? && pages[j].0 !! entries.Keys
      {
        var (keys, outcome) := pages[i];
        if !outcome.Undone? {
          entries := entries - keys;
        }
        if !outcome.Confirmed? {
          assert pages[i] in pages;
          return false;
        }
      }
      return true;
    }
  }
}
