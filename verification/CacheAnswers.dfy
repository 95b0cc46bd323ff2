/** What each operation of the bounded cache answers and leaves behind, said of the entries themselves
    (`bounded-cache.ts`). */
module CacheAnswers {
  import opened Options
  import opened CacheSpec

  ghost predicate Holds<K(!new), V(!new)>(entries: seq<Entry<K, V>>, key: K) {
    exists i :: HoldsAt(entries, key, i)
  }

  ghost predicate HoldsAt<K(!new), V(!new)>(entries: seq<Entry<K, V>>, key: K, i: int) {
    0 <= i < |entries| && entries[i].key == key
  }

  /** The entries without the one of the key, in their order. */
  ghost predicate Others<K(!new), V(!new)>(entries: seq<Entry<K, V>>, key: K, rest: seq<Entry<K, V>>) {
    if Holds(entries, key) then exists i :: HoldsAt(entries, key, i) && rest == entries[..i] + entries[i + 1..]
    else rest == entries
  }

  lemma {:induction false} FoundAt<K(!new), V(!new)>(entries: seq<Entry<K, V>>, key: K, i: int)
    requires KeysDistinct(entries) && HoldsAt(entries, key, i)
    ensures Find(entries, key) == Some(entries[i]) && Without(entries, key) == entries[..i] + entries[i + 1..]
    decreases |entries|
  {
    var rest := entries[1..];
    if i == 0 {
      forall e | e in rest ensures e.key != key { InTail(entries, e); }
      WithoutAbsent(rest, key);
    } else {
      FoundAt(rest, key, i - 1);
      OneInFront(entries, i);
    }
  }

  lemma OneInFront<T>(s: seq<T>, i: nat)
    requires 0 < i < |s|
    ensures [s[0]] + (s[1..][..i - 1] + s[1..][i..]) == s[..i] + s[i + 1..]
  {}

  lemma OthersIs<K(!new), V(!new)>(entries: seq<Entry<K, V>>, key: K)
    requires KeysDistinct(entries)
    ensures Others(entries, key, Without(entries, key))
    ensures Find(entries, key).Some? <==> Holds(entries, key)
  {
    if Holds(entries, key) {
      var i :| HoldsAt(entries, key, i);
      FoundAt(entries, key, i);
    } else {
      forall e | e in entries ensures e.key != key {
        var i :| 0 <= i < |entries| && entries[i] == e;
        assert !HoldsAt(entries, key, i);
      }
      WithoutAbsent(entries, key);
    }
  }

  /** A lookup hits if and only if the cache is on and the key is resident; then the entry's value is the
      answer, the entry moves to the recent end, and one hit is counted. Otherwise one miss is counted and
      nothing else changes. */
  lemma GetAnswers<K(!new), V(!new)>(c: Config<V>, s: State<K, V>, key: K)
    requires KeysDistinct(s.entries)
    ensures forall i :: c.enabled && HoldsAt(s.entries, key, i) ==>
      Get(c, s, key) == (s.(hits := s.hits + 1, entries := s.entries[..i] + s.entries[i + 1..] + [s.entries[i]]), Some(s.entries[i].value))
    ensures !c.enabled || !Holds(s.entries, key) ==> Get(c, s, key) == (s.(misses := s.misses + 1), None)
  {
    OthersIs(s.entries, key);
    forall i | HoldsAt(s.entries, key, i)
      ensures Find(s.entries, key) == Some(s.entries[i]) && Without(s.entries, key) == s.entries[..i] + s.entries[i + 1..]
    {
      FoundAt(s.entries, key, i);
    }
  }

  /** The value weighs a non-negative amount within the ceiling for one item. */
  ghost predicate Weighs<V(!new)>(c: Config<V>, value: V, w: real) {
    c.weigh(value) == Some(w) && 0.0 <= w && w <= c.maxItemWeight
  }

  /** A value is accepted if and only if the cache is on and the value has an admissible weight. Refused, it
      costs its key its entry; the weight counter stays. */
  lemma SetAnswers<K(!new), V(!new)>(c: Config<V>, s: State<K, V>, key: K, value: V)
    requires KeysDistinct(s.entries)
    ensures Set(c, s, key, value).1 <==> c.enabled && exists w :: Weighs(c, value, w)
    ensures !c.enabled ==> Set(c, s, key, value).0 == s
    ensures c.enabled && (forall w :: !Weighs(c, value, w)) ==>
      var t := Set(c, s, key, value).0;
      Others(s.entries, key, t.entries) && t == s.(entries := t.entries, refusedOversize := s.refusedOversize + 1)
  {
    OthersIs(s.entries, key);
    if c.weigh(value).Some? && 0.0 <= c.weigh(value).value <= c.maxItemWeight { assert Weighs(c, value, c.weigh(value).value); }
  }

  /** An accepted value is the newest entry; then the oldest `j` entries go, each counted and remembered with
      its weight and its number in the order of evictions. */
  lemma AcceptedState<K(!new), V(!new)>(c: Config<V>, s: State<K, V>, key: K, value: V, w: real)
    returns (rest: seq<Entry<K, V>>, j: nat)
    requires Invariant(c, s) && c.enabled && Weighs(c, value, w)
    ensures Others(s.entries, key, rest)
    ensures Evicted(c, s.(entries := rest + [Entry(key, value, w)], tombstones := WithoutTombstone(s.tombstones, key)),
                    Set(c, s, key, value).0, j)
  {
    rest := Without(s.entries, key);
    OthersIs(s.entries, key);
    AdmitKeeps(c, s, key, value, w);
    j := EvictionCounts(c, Admit(s, key, value, w));
  }

  /** The oldest `j` entries of `s` are gone, counted and remembered. */
  ghost predicate Evicted<K(!new), V(!new)>(c: Config<V>, s: State<K, V>, t: State<K, V>, j: nat) {
    && j <= |s.entries| && t.entries == s.entries[j..] && t.evictions == s.evictions + j
    && t.hits == s.hits && t.misses == s.misses && t.refusedOversize == s.refusedOversize
    && t.tombstones == Newest(s.tombstones + Buried(s.entries[..j], s.evictions), c.maxTombstones)
  }

  function Newest<T>(ts: seq<T>, max: nat): seq<T> {
    if |ts| <= max then ts else ts[|ts| - max..]
  }

  lemma NewestTwice<T>(s: seq<T>, t: seq<T>, max: nat)
    ensures Newest(Newest(s, max) + t, max) == Newest(s + t, max)
  {
    if |s| > max {
      var k := |s| - max;
      assert Newest(s, max) + t == (s + t)[k..];
    }
  }

  function Buried<K(!new), V(!new)>(gone: seq<Entry<K, V>>, evictions: nat): seq<Tombstone<K>> {
    seq(|gone|, i requires 0 <= i < |gone| => Tombstone(gone[i].key, gone[i].weight, evictions + i + 1))
  }

  lemma {:induction false} NoTombstone<K(!new)>(ts: seq<Tombstone<K>>, key: K)
    requires forall t :: t in ts ==> t.key != key
    ensures WithoutTombstone(ts, key) == ts
  {
    if ts != [] { NoTombstone(ts[1..], key); }
  }

  lemma {:induction false} ForgetIs<K(!new), V(!new)>(c: Config<V>, s: State<K, V>)
    ensures var t := Forget(c, s); t == s.(tombstones := Newest(s.tombstones, c.maxTombstones), forgotten := t.forgotten)
    decreases |s.tombstones|
  {
    if |s.tombstones| > c.maxTombstones {
      ForgetIs(c, s.(tombstones := s.tombstones[1..], forgotten := s.forgotten + 1));
    }
  }

  /** One eviction. */
  lemma EvictedOne<K(!new), V(!new)>(c: Config<V>, s: State<K, V>)
    requires Sane(c, s) && s.entries != []
    ensures Evicted(c, s, EvictOldest(c, s), 1)
  {
    var oldest := s.entries[0];
    var tomb := Tombstone(oldest.key, oldest.weight, s.evictions + 1);
    assert Buried(s.entries[..1], s.evictions) == [tomb];
    forall x | x in s.tombstones ensures x.key != oldest.key { assert oldest in s.entries; }
    NoTombstone(s.tombstones, oldest.key);
    if c.maxTombstones > 0 {
      var after := s.(entries := s.entries[1..], weight := s.weight - oldest.weight, evictions := s.evictions + 1);
      ForgetIs(c, after.(tombstones := s.tombstones + [tomb]));
    }
  }

  lemma BuriedJoins<K(!new), V(!new)>(a: seq<Entry<K, V>>, b: seq<Entry<K, V>>, n: nat)
    ensures Buried(a + b, n) == Buried(a, n) + Buried(b, n + |a|)
  {}

  lemma EvictedMore<K(!new), V(!new)>(c: Config<V>, s: State<K, V>, mid: State<K, V>, t: State<K, V>, i: nat, j: nat)
    requires Evicted(c, s, mid, i) && Evicted(c, mid, t, j)
    ensures Evicted(c, s, t, i + j)
  {
    var a, b := s.entries[..i], mid.entries[..j];
    assert s.entries[..i + j] == a + b && mid.entries[j..] == s.entries[i + j..];
    BuriedJoins(a, b, s.evictions);
    NewestJoins(s.tombstones, Buried(a, s.evictions), Buried(b, mid.evictions), c.maxTombstones);
  }

  lemma NewestJoins<T>(s: seq<T>, t: seq<T>, u: seq<T>, max: nat)
    ensures Newest(Newest(s + t, max) + u, max) == Newest(s + (t + u), max)
  {
    NewestTwice(s + t, u, max);
    assert s + (t + u) == s + t + u;
  }

  lemma NoneEvicted<K(!new), V(!new)>(c: Config<V>, s: State<K, V>)
    requires |s.tombstones| <= c.maxTombstones
    ensures Evicted(c, s, s, 0)
  {
    assert Buried(s.entries[..0], s.evictions) == [] && s.tombstones + [] == s.tombstones;
  }

  lemma {:induction false} EvictionCounts<K(!new), V(!new)>(c: Config<V>, s: State<K, V>) returns (j: nat)
    requires Sane(c, s)
    ensures Evicted(c, s, EvictToFit(c, s), j)
    decreases |s.entries|
  {
    if s.entries == [] || Fits(c, s.entries, s.weight) {
      NoneEvicted(c, s);
      j := 0;
    } else {
      EvictOldestKeeps(c, s);
      EvictedOne(c, s);
      var k := EvictionCounts(c, EvictOldest(c, s));
      EvictedMore(c, s, EvictOldest(c, s), EvictToFit(c, s), 1, k);
      j := k + 1;
    }
  }

  /** A removal answers whether the key was resident; the key's entry, its weight and any memory of it go. */
  lemma DeleteAnswers<K(!new), V(!new)>(s: State<K, V>, key: K)
    requires KeysDistinct(s.entries)
    ensures Delete(s, key).1 <==> Holds(s.entries, key)
    ensures var t := Delete(s, key).0;
      Others(s.entries, key, t.entries) && t == s.(entries := t.entries, tombstones := t.tombstones, weight := t.weight)
      && (forall x :: x in t.tombstones <==> x in s.tombstones && x.key != key)
    ensures forall i :: HoldsAt(s.entries, key, i) ==> Delete(s, key).0.weight == s.weight - s.entries[i].weight
    ensures !Holds(s.entries, key) ==> Delete(s, key).0.weight == s.weight
  {
    OthersIs(s.entries, key);
    forall i | HoldsAt(s.entries, key, i) ensures Find(s.entries, key) == Some(s.entries[i]) { FoundAt(s.entries, key, i); }
  }

  /** Clearing leaves no entry and no memory; the counters stay. */
  lemma ClearAnswers<K(!new), V(!new)>(s: State<K, V>)
    ensures Clear(s) == State([], [], 0.0, s.hits, s.misses, s.evictions, s.refusedOversize, s.forgotten)
  {}
}
