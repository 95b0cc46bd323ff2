/** The cache as an object (`bounded-cache.ts`). Each method is proved to do what CacheSpec says. */
module BoundedCache {
  import opened Options
  import opened CacheSpec

  class Cache<K(==, !new), V(!new)> {
    const config: Config<V>
    var entries: seq<Entry<K, V>>
    var tombstones: seq<Tombstone<K>>
    var weight: real
    var hits: nat
    var misses: nat
    var evictions: nat
    var refusedOversize: nat
    var forgottenEntirely: nat

    ghost function Now(): State<K, V>
      reads this
    {
      State(entries, tombstones, weight, hits, misses, evictions, refusedOversize, forgottenEntirely)
    }

    constructor (config: Config<V>)
      requires ValidConfig(config)
      ensures this.config == config && Now() == Empty()
    {
      this.config := config;
      entries, tombstones, weight := [], [], 0.0;
      hits, misses, evictions, refusedOversize, forgottenEntirely := 0, 0, 0, 0, 0;
    }

    /** Look a key up; a hit moves its entry to the most recently used end. */
    method Get(key: K) returns (value: Option<V>)
      modifies this
      ensures (Now(), value) == CacheSpec.Get(config, old(Now()), key)
    {
      if !config.enabled {
        misses := misses + 1;
        return None;
      }
      var hit := Find(entries, key);
      if hit.None? {
        misses := misses + 1;
        return None;
      }
      hits := hits + 1;
      entries := Without(entries, key);
      entries := entries + [hit.value];
      return Some(hit.value.value);
    }

    /** Offer a value; says whether it was accepted. */
    method Set(key: K, value: V) returns (accepted: bool)
      modifies this
      ensures (Now(), accepted) == CacheSpec.Set(config, old(Now()), key, value)
    {
      if !config.enabled { return false; }
      var w := ItemWeight(config, value);
      if w.None? {
        refusedOversize := refusedOversize + 1;
        entries := Without(entries, key);
        return false;
      }
      ghost var before := Now();
      var existing := Find(entries, key);
      if existing.Some? {
        weight := weight - existing.value.weight;
        entries := Without(entries, key);
      } else {
        WithoutAbsent(entries, key);
      }
      tombstones := WithoutTombstone(tombstones, key);
      entries := entries + [Entry(key, value, w.value)];
      weight := weight + w.value;
      assert Now() == Admit(before, key, value, w.value);
      EvictDown();
      return true;
    }

    /** Evict from the oldest end until both bounds hold. */
    method EvictDown()
      modifies this
      ensures Now() == EvictToFit(config, old(Now()))
    {
      ghost var goal := EvictToFit(config, Now());
      while |entries| > config.maxEntries || weight > config.maxWeight
        invariant EvictToFit(config, Now()) == goal
        decreases |entries|
      {
        if entries == [] { return; }
        ghost var before := Now();
        var oldest := entries[0];
        entries := entries[1..];
        weight := weight - oldest.weight;
        evictions := evictions + 1;
        Entomb(oldest.key, oldest.weight);
        assert Now() == EvictOldest(config, before);
      }
    }

    /** Remember an evicted key, forgetting the oldest ones beyond the ceiling. */
    method Entomb(key: K, w: real)
      modifies this`tombstones, this`forgottenEntirely
      ensures Now() == Bury(config, old(Now()), Tombstone(key, w, old(evictions)))
    {
      if config.maxTombstones == 0 { return; }
      tombstones := WithoutTombstone(tombstones, key);
      tombstones := tombstones + [Tombstone(key, w, evictions)];
      ghost var goal := Forget(config, Now());
      while |tombstones| > config.maxTombstones
        invariant Forget(config, Now()) == goal
        decreases |tombstones|
      {
        tombstones := tombstones[1..];
        forgottenEntirely := forgottenEntirely + 1;
      }
    }

    /** Whether the key is resident or remembered. */
    method Knew(key: K) returns (known: bool)
      ensures known <==> (exists e :: e in entries && e.key == key) || (exists t :: t in tombstones && t.key == key)
    {
      known := Find(entries, key).Some? || (exists t :: t in tombstones && t.key == key);
    }

    /** Explicit removal leaves no tombstone. */
    method Delete(key: K) returns (deleted: bool)
      modifies this
      ensures (Now(), deleted) == CacheSpec.Delete(old(Now()), key)
    {
      var e := Find(entries, key);
      tombstones := WithoutTombstone(tombstones, key);
      if e.None? { return false; }
      weight := weight - e.value.weight;
      entries := Without(entries, key);
      return true;
    }

    method Clear()
      modifies this
      ensures Now() == CacheSpec.Clear(old(Now()))
    {
      entries, tombstones, weight := [], [], 0.0;
    }
  }
}
