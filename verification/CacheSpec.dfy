/** The bounded cache as a state machine (`bounded-cache.ts`): what each operation does to the state, and
    what holds over every run. Weights are real numbers. */
module CacheSpec {
  import opened Folding
  import opened Options

  datatype Entry<K, V> = Entry(key: K, value: V, weight: real)

  /** What is remembered of an evicted key. */
  datatype Tombstone<K> = Tombstone(key: K, weight: real, evictedAt: nat)

  /** `weigh` has no result when the caller's code throws. No tombstones are kept when `maxTombstones` is 0. */
  datatype Config<!V> = Config(maxEntries: nat, maxWeight: real, maxItemWeight: real, weigh: V -> Option<real>,
                               maxTombstones: nat, enabled: bool)

  /** What the constructor accepts. */
  predicate ValidConfig<V(!new)>(c: Config<V>) {
    c.maxEntries >= 1 && 0.0 < c.maxItemWeight <= c.maxWeight
  }

  /** Entries and tombstones stand in the order in which they were put in. */
  datatype State<K, V> = State(entries: seq<Entry<K, V>>, tombstones: seq<Tombstone<K>>, weight: real,
                               hits: nat, misses: nat, evictions: nat, refusedOversize: nat, forgotten: nat)

  function Empty<K(!new), V(!new)>(): State<K, V> {
    State([], [], 0.0, 0, 0, 0, 0, 0)
  }

  // ----- Ordered maps -----

  function Find<K(==, !new), V(!new)>(entries: seq<Entry<K, V>>, key: K): (r: Option<Entry<K, V>>)
    ensures r.Some? ==> r.value in entries && r.value.key == key
    ensures r.None? ==> forall e :: e in entries ==> e.key != key
  {
    if entries == [] then None
    else if entries[0].key == key then Some(entries[0])
    else Find(entries[1..], key)
  }

  function Without<K(==, !new), V(!new)>(entries: seq<Entry<K, V>>, key: K): (r: seq<Entry<K, V>>)
    ensures forall e :: e in r <==> e in entries && e.key != key
    ensures |r| <= |entries|
  {
    if entries == [] then []
    else if entries[0].key == key then Without(entries[1..], key)
    else [entries[0]] + Without(entries[1..], key)
  }

  function WithoutTombstone<K(==, !new)>(ts: seq<Tombstone<K>>, key: K): (r: seq<Tombstone<K>>)
    ensures forall t :: t in r <==> t in ts && t.key != key
    ensures |r| <= |ts|
  {
    if ts == [] then []
    else if ts[0].key == key then WithoutTombstone(ts[1..], key)
    else [ts[0]] + WithoutTombstone(ts[1..], key)
  }

  function Sum<K(!new), V(!new)>(entries: seq<Entry<K, V>>): real {
    if entries == [] then 0.0 else entries[0].weight + Sum(entries[1..])
  }

  // ----- Operations -----

  function Get<K(==, !new), V(!new)>(c: Config<V>, s: State<K, V>, key: K): (State<K, V>, Option<V>) {
    if !c.enabled then (s.(misses := s.misses + 1), None)
    else
      match Find(s.entries, key)
      case None => (s.(misses := s.misses + 1), None)
      case Some(hit) => (s.(hits := s.hits + 1, entries := Without(s.entries, key) + [hit]), Some(hit.value))
  }

  /** No weight when the value cannot be weighed sensibly or is too heavy for one item. */
  function ItemWeight<V(!new)>(c: Config<V>, value: V): Option<real> {
    match c.weigh(value)
    case None => None
    case Some(w) => if 0.0 <= w <= c.maxItemWeight then Some(w) else None
  }

  function Set<K(==, !new), V(!new)>(c: Config<V>, s: State<K, V>, key: K, value: V): (State<K, V>, bool) {
    if !c.enabled then (s, false)
    else
      match ItemWeight(c, value)
      case None => (s.(refusedOversize := s.refusedOversize + 1, entries := Without(s.entries, key)), false)
      case Some(w) => (EvictToFit(c, Admit(s, key, value, w)), true)
  }

  function WeightOf<K(==, !new), V(!new)>(entries: seq<Entry<K, V>>, key: K): real {
    match Find(entries, key)
    case None => 0.0
    case Some(e) => e.weight
  }

  function Admit<K(==, !new), V(!new)>(s: State<K, V>, key: K, value: V, w: real): State<K, V> {
    s.(entries := Without(s.entries, key) + [Entry(key, value, w)],
       tombstones := WithoutTombstone(s.tombstones, key),
       weight := s.weight - WeightOf(s.entries, key) + w)
  }

  predicate Fits<K(!new), V(!new)>(c: Config<V>, entries: seq<Entry<K, V>>, weight: real) {
    |entries| <= c.maxEntries && weight <= c.maxWeight
  }

  function EvictToFit<K(==, !new), V(!new)>(c: Config<V>, s: State<K, V>): State<K, V>
    decreases |s.entries|
  {
    if s.entries == [] || Fits(c, s.entries, s.weight) then s else EvictToFit(c, EvictOldest(c, s))
  }

  function EvictOldest<K(==, !new), V(!new)>(c: Config<V>, s: State<K, V>): (r: State<K, V>)
    requires s.entries != []
    ensures r.entries == s.entries[1..]
  {
    var oldest := s.entries[0];
    var after := s.(entries := s.entries[1..], weight := s.weight - oldest.weight, evictions := s.evictions + 1);
    Bury(c, after, Tombstone(oldest.key, oldest.weight, after.evictions))
  }

  function Bury<K(==, !new), V(!new)>(c: Config<V>, s: State<K, V>, t: Tombstone<K>): (r: State<K, V>)
    ensures r.entries == s.entries && r.weight == s.weight
  {
    if c.maxTombstones == 0 then s
    else Forget(c, s.(tombstones := WithoutTombstone(s.tombstones, t.key) + [t]))
  }

  function Forget<K(!new), V(!new)>(c: Config<V>, s: State<K, V>): (r: State<K, V>)
    ensures r.entries == s.entries && r.weight == s.weight
    decreases |s.tombstones|
  {
    if |s.tombstones| <= c.maxTombstones then s
    else Forget(c, s.(tombstones := s.tombstones[1..], forgotten := s.forgotten + 1))
  }

  function Delete<K(==, !new), V(!new)>(s: State<K, V>, key: K): (State<K, V>, bool) {
    var t := s.(tombstones := WithoutTombstone(s.tombstones, key));
    match Find(s.entries, key)
    case None => (t, false)
    case Some(e) => (t.(weight := s.weight - e.weight, entries := Without(s.entries, key)), true)
  }

  function Clear<K(!new), V(!new)>(s: State<K, V>): State<K, V> {
    s.(entries := [], tombstones := [], weight := 0.0)
  }

  // ----- Runs -----

  datatype Op<K, V> = DoGet(key: K) | DoSet(key: K, value: V) | DoDelete(key: K) | DoClear

  function Step<K(==, !new), V(!new)>(c: Config<V>, s: State<K, V>, op: Op<K, V>): State<K, V> {
    match op
    case DoGet(k) => Get(c, s, k).0
    case DoSet(k, v) => Set(c, s, k, v).0
    case DoDelete(k) => Delete(s, k).0
    case DoClear => Clear(s)
  }

  function Run<K(==, !new), V(!new)>(c: Config<V>, ops: seq<Op<K, V>>): State<K, V> {
    if ops == [] then Empty() else Step(c, Run(c, ops[..|ops| - 1]), ops[|ops| - 1])
  }

  // ----- What every run keeps -----

  ghost predicate KeysDistinct<K(!new), V(!new)>(entries: seq<Entry<K, V>>) {
    forall i, j :: 0 <= i < j < |entries| ==> entries[i].key != entries[j].key
  }

  ghost predicate TombstonesDistinct<K(!new)>(ts: seq<Tombstone<K>>) {
    forall i, j :: 0 <= i < j < |ts| ==> ts[i].key != ts[j].key
  }

  ghost predicate Disjoint<K(!new), V(!new)>(s: State<K, V>) {
    forall e, t :: e in s.entries && t in s.tombstones ==> e.key != t.key
  }

  ghost predicate WeightsKnown<K(!new), V(!new)>(c: Config<V>, entries: seq<Entry<K, V>>) {
    forall e :: e in entries ==> 0.0 <= e.weight <= c.maxItemWeight
  }

  /** How far the counter is above the weight that is there. */
  function Drift<K(!new), V(!new)>(s: State<K, V>): real {
    s.weight - Sum(s.entries)
  }

  /** Everything but the two bounds on what is resident. */
  ghost predicate Sane<K(!new), V(!new)>(c: Config<V>, s: State<K, V>) {
    && KeysDistinct(s.entries) && TombstonesDistinct(s.tombstones) && Disjoint(s) && WeightsKnown(c, s.entries)
    && |s.tombstones| <= c.maxTombstones && 0.0 <= Drift(s) <= c.maxWeight
  }

  ghost predicate Invariant<K(!new), V(!new)>(c: Config<V>, s: State<K, V>) {
    Sane(c, s) && Fits(c, s.entries, s.weight)
  }

  // Facts about ordered maps

  lemma InTail<K(!new), V(!new)>(entries: seq<Entry<K, V>>, e: Entry<K, V>)
    requires KeysDistinct(entries) && entries != [] && e in entries[1..]
    ensures e.key != entries[0].key
  {
    var i :| 0 <= i < |entries| - 1 && entries[1..][i] == e;
    assert entries[i + 1] == e;
  }

  lemma {:induction false} WithoutDistinct<K(!new), V(!new)>(entries: seq<Entry<K, V>>, key: K)
    requires KeysDistinct(entries)
    ensures KeysDistinct(Without(entries, key))
  {
    if entries != [] {
      WithoutDistinct(entries[1..], key);
      forall e | e in Without(entries[1..], key) ensures e.key != entries[0].key { InTail(entries, e); }
    }
  }

  lemma {:induction false} WithoutAbsent<K(!new), V(!new)>(entries: seq<Entry<K, V>>, key: K)
    requires forall e :: e in entries ==> e.key != key
    ensures Without(entries, key) == entries
  {
    if entries != [] { WithoutAbsent(entries[1..], key); }
  }

  lemma {:induction false} WithoutSum<K(!new), V(!new)>(entries: seq<Entry<K, V>>, key: K)
    requires KeysDistinct(entries)
    ensures Sum(Without(entries, key)) == Sum(entries) - WeightOf(entries, key)
    ensures Find(entries, key).Some? ==> |Without(entries, key)| == |entries| - 1
  {
    if entries != [] {
      if entries[0].key == key {
        forall e | e in entries[1..] ensures e.key != key { InTail(entries, e); }
        WithoutAbsent(entries[1..], key);
      } else {
        WithoutSum(entries[1..], key);
      }
    }
  }

  lemma WithoutKeeps<K(!new), V(!new)>(entries: seq<Entry<K, V>>, key: K)
    requires KeysDistinct(entries)
    ensures KeysDistinct(Without(entries, key))
    ensures Sum(Without(entries, key)) == Sum(entries) - WeightOf(entries, key)
    ensures Find(entries, key).Some? ==> |Without(entries, key)| == |entries| - 1
    ensures Find(entries, key).None? ==> Without(entries, key) == entries
  {
    WithoutDistinct(entries, key);
    WithoutSum(entries, key);
    if Find(entries, key).None? { WithoutAbsent(entries, key); }
  }

  lemma {:induction false} SumAppend<K(!new), V(!new)>(entries: seq<Entry<K, V>>, e: Entry<K, V>)
    ensures Sum(entries + [e]) == Sum(entries) + e.weight
  {
    if entries != [] {
      SumAppend(entries[1..], e);
      assert (entries + [e])[1..] == entries[1..] + [e];
    }
  }

  lemma {:induction false} SumIsNonNegative<K(!new), V(!new)>(c: Config<V>, entries: seq<Entry<K, V>>)
    requires WeightsKnown(c, entries)
    ensures Sum(entries) >= 0.0
  {
    if entries != [] { SumIsNonNegative(c, entries[1..]); }
  }

  lemma {:induction false} WithoutTombstoneKeeps<K(!new)>(ts: seq<Tombstone<K>>, key: K)
    requires TombstonesDistinct(ts)
    ensures TombstonesDistinct(WithoutTombstone(ts, key))
  {
    if ts != [] {
      var rest := ts[1..];
      WithoutTombstoneKeeps(rest, key);
      if ts[0].key != key {
        forall t | t in WithoutTombstone(rest, key) ensures t.key != ts[0].key {
          var i :| 0 <= i < |rest| && rest[i] == t;
          assert ts[i + 1] == t;
        }
      }
    }
  }

  lemma AppendEntry<K(!new), V(!new)>(entries: seq<Entry<K, V>>, e: Entry<K, V>)
    requires KeysDistinct(entries) && forall x :: x in entries ==> x.key != e.key
    ensures KeysDistinct(entries + [e])
  {}

  lemma AppendTombstone<K(!new)>(ts: seq<Tombstone<K>>, t: Tombstone<K>)
    requires TombstonesDistinct(ts) && forall x :: x in ts ==> x.key != t.key
    ensures TombstonesDistinct(ts + [t])
  {}

  // ----- Eviction -----

  lemma BuryKeeps<K(!new), V(!new)>(c: Config<V>, s: State<K, V>, t: Tombstone<K>)
    requires Sane(c, s) && forall e :: e in s.entries ==> e.key != t.key
    ensures Sane(c, Bury(c, s, t)) && Bury(c, s, t).entries == s.entries && Bury(c, s, t).weight == s.weight
  {
    if c.maxTombstones > 0 {
      WithoutTombstoneKeeps(s.tombstones, t.key);
      AppendTombstone(WithoutTombstone(s.tombstones, t.key), t);
      var put := s.(tombstones := WithoutTombstone(s.tombstones, t.key) + [t]);
      if |put.tombstones| > c.maxTombstones {
        var less := put.(tombstones := put.tombstones[1..], forgotten := put.forgotten + 1);
        assert Forget(c, put) == Forget(c, less) == less;
        assert forall x :: x in less.tombstones ==> x in put.tombstones;
      }
    }
  }

  lemma EvictOldestKeeps<K(!new), V(!new)>(c: Config<V>, s: State<K, V>)
    requires Sane(c, s) && s.entries != []
    ensures Sane(c, EvictOldest(c, s)) && EvictOldest(c, s).entries == s.entries[1..]
    ensures Drift(EvictOldest(c, s)) == Drift(s)
  {
    var oldest := s.entries[0];
    var after := s.(entries := s.entries[1..], weight := s.weight - oldest.weight, evictions := s.evictions + 1);
    forall e | e in after.entries ensures e.key != oldest.key {
      var i :| 0 <= i < |after.entries| && after.entries[i] == e;
      assert s.entries[i + 1] == e;
    }
    BuryKeeps(c, after, Tombstone(oldest.key, oldest.weight, after.evictions));
  }

  /** Dropping the first `j` entries would satisfy both bounds. */
  ghost predicate FitsAfter<K(!new), V(!new)>(c: Config<V>, s: State<K, V>, j: nat)
    requires j <= |s.entries|
  {
    Fits(c, s.entries[j..], Drift(s) + Sum(s.entries[j..]))
  }

  /** Eviction drops the fewest oldest entries that make the rest fit, and nothing else changes the weight. */
  lemma {:induction false} EvictionIsMinimal<K(!new), V(!new)>(c: Config<V>, s: State<K, V>) returns (j: nat)
    requires Sane(c, s)
    ensures j <= |s.entries| && EvictToFit(c, s).entries == s.entries[j..]
    ensures FitsAfter(c, s, j) && forall i :: 0 <= i < j ==> !FitsAfter(c, s, i)
    ensures Invariant(c, EvictToFit(c, s)) && Drift(EvictToFit(c, s)) == Drift(s)
    decreases |s.entries|
  {
    assert s.entries[0..] == s.entries;
    if s.entries == [] || Fits(c, s.entries, s.weight) {
      j := 0;
    } else {
      var next := EvictOldest(c, s);
      EvictOldestKeeps(c, s);
      var k := EvictionIsMinimal(c, next);
      j := k + 1;
      assert next.entries[k..] == s.entries[j..];
      forall i | 0 <= i < j ensures !FitsAfter(c, s, i) {
        if i > 0 { assert !FitsAfter(c, next, i - 1) && next.entries[i - 1..] == s.entries[i..]; }
      }
    }
  }

  // ----- Every operation -----

  lemma AdmitKeeps<K(!new), V(!new)>(c: Config<V>, s: State<K, V>, key: K, value: V, w: real)
    requires Invariant(c, s) && 0.0 <= w <= c.maxItemWeight
    ensures Sane(c, Admit(s, key, value, w)) && Drift(Admit(s, key, value, w)) == Drift(s)
  {
    WithoutKeeps(s.entries, key);
    WithoutTombstoneKeeps(s.tombstones, key);
    AppendEntry(Without(s.entries, key), Entry(key, value, w));
    SumAppend(Without(s.entries, key), Entry(key, value, w));
  }

  /** What the operation adds to the drift: only a refused value for a resident key adds any. */
  function DriftAfter<K(==, !new), V(!new)>(c: Config<V>, s: State<K, V>, op: Op<K, V>): real {
    match op
    case DoSet(k, v) =>
      if c.enabled && ItemWeight(c, v).None? then Drift(s) + WeightOf(s.entries, k) else Drift(s)
    case DoClear => 0.0
    case DoGet(_) => Drift(s)
    case DoDelete(_) => Drift(s)
  }

  lemma SetKeeps<K(!new), V(!new)>(c: Config<V>, s: State<K, V>, key: K, value: V)
    requires ValidConfig(c) && Invariant(c, s)
    ensures Invariant(c, Set(c, s, key, value).0)
    ensures Drift(Set(c, s, key, value).0) == DriftAfter(c, s, DoSet(key, value))
  {
    if c.enabled {
      match ItemWeight(c, value)
      case None =>
        WithoutKeeps(s.entries, key);
        SumIsNonNegative(c, Without(s.entries, key));
      case Some(w) =>
        AdmitKeeps(c, s, key, value, w);
        var j := EvictionIsMinimal(c, Admit(s, key, value, w));
    }
  }

  lemma GetKeeps<K(!new), V(!new)>(c: Config<V>, s: State<K, V>, key: K)
    requires Invariant(c, s)
    ensures Invariant(c, Get(c, s, key).0) && Drift(Get(c, s, key).0) == Drift(s)
  {
    if c.enabled && Find(s.entries, key).Some? {
      var hit := Find(s.entries, key).value;
      WithoutKeeps(s.entries, key);
      AppendEntry(Without(s.entries, key), hit);
      SumAppend(Without(s.entries, key), hit);
    }
  }

  lemma DeleteKeeps<K(!new), V(!new)>(c: Config<V>, s: State<K, V>, key: K)
    requires Invariant(c, s)
    ensures Invariant(c, Delete(s, key).0) && Drift(Delete(s, key).0) == Drift(s)
  {
    WithoutTombstoneKeeps(s.tombstones, key);
    WithoutKeeps(s.entries, key);
    SumIsNonNegative(c, s.entries);
    if Find(s.entries, key).Some? { assert Find(s.entries, key).value in s.entries; }
  }

  lemma StepKeeps<K(!new), V(!new)>(c: Config<V>, s: State<K, V>, op: Op<K, V>)
    requires ValidConfig(c) && Invariant(c, s)
    ensures Invariant(c, Step(c, s, op)) && Drift(Step(c, s, op)) == DriftAfter(c, s, op)
  {
    match op
    case DoGet(k) => GetKeeps(c, s, k);
    case DoSet(k, v) => SetKeeps(c, s, k, v);
    case DoDelete(k) => DeleteKeeps(c, s, k);
    case DoClear =>
  }

  /** Over every run: at most `maxEntries` entries, and their weight within `maxWeight`. */
  lemma {:induction false} RunKeeps<K(!new), V(!new)>(c: Config<V>, ops: seq<Op<K, V>>)
    requires ValidConfig(c)
    ensures Invariant(c, Run(c, ops)) && Sum(Run(c, ops).entries) <= c.maxWeight
  {
    if ops != [] {
      RunKeeps(c, ops[..|ops| - 1]);
      StepKeeps(c, Run(c, ops[..|ops| - 1]), ops[|ops| - 1]);
    }
  }

  /** An accepted value is resident afterwards exactly when it fits on top of the drift. */
  lemma AcceptedIsResident<K(!new), V(!new)>(c: Config<V>, s: State<K, V>, key: K, value: V)
    requires ValidConfig(c) && Invariant(c, s) && Set(c, s, key, value).1
    ensures var after := Set(c, s, key, value).0.entries;
      (Find(after, key).Some? <==> Drift(s) + ItemWeight(c, value).value <= c.maxWeight) &&
      (Find(after, key).Some? ==> after[|after| - 1].key == key && after[|after| - 1].value == value)
  {
    var w := ItemWeight(c, value).value;
    var put := Admit(s, key, value, w);
    AdmitKeeps(c, s, key, value, w);
    LastOneStays(c, put);
    assert put.entries[|put.entries| - 1] == Entry(key, value, w);
  }

  lemma SuffixSum<K(!new), V(!new)>(c: Config<V>, all: seq<Entry<K, V>>, i: nat)
    requires WeightsKnown(c, all) && i < |all|
    ensures Sum(all[i..]) >= all[|all| - 1].weight && (i == |all| - 1 ==> Sum(all[i..]) == all[|all| - 1].weight)
  {
    var last := |all| - 1;
    SumIsNonNegative(c, all[i..last]);
    SumAppend(all[i..last], all[last]);
    assert all[i..] == all[i..last] + [all[last]];
  }

  /** The newest entry survives eviction exactly when it fits on top of the drift. */
  lemma LastOneStays<K(!new), V(!new)>(c: Config<V>, s: State<K, V>)
    requires ValidConfig(c) && Sane(c, s) && s.entries != []
    ensures var newest, after := s.entries[|s.entries| - 1], EvictToFit(c, s).entries;
      if Drift(s) + newest.weight <= c.maxWeight then after != [] && after[|after| - 1] == newest else after == []
  {
    var last := |s.entries| - 1;
    var j := EvictionIsMinimal(c, s);
    if Drift(s) + s.entries[last].weight <= c.maxWeight {
      SuffixSum(c, s.entries, last);
      assert FitsAfter(c, s, last);
    } else if j <= last {
      SuffixSum(c, s.entries, j);
    }
  }

  function SmallCache(): Config<real> {
    Config(10, 2.0, 2.0, (v: real) => Some(v), 0, true)
  }

  function Admitted(): State<string, real> {
    State([Entry("a", 2.0, 2.0)], [], 2.0, 0, 0, 0, 0, 0)
  }

  lemma FirstIsAdmitted()
    ensures Set(SmallCache(), Empty<string, real>(), "a", 2.0).0 == Admitted()
  {
    var put := Admit(Empty<string, real>(), "a", 2.0, 2.0);
    assert put == Admitted();
    assert EvictToFit(SmallCache(), put) == put;
  }

  function Drifted(): State<string, real> {
    State([], [], 2.0, 0, 0, 0, 1, 0)
  }

  lemma SecondIsRefused()
    ensures Set(SmallCache(), Admitted(), "a", 5.0).0 == Drifted()
  {
    assert ItemWeight(SmallCache(), 5.0) == None;
    assert Without(Admitted().entries, "a") == [];
  }

  lemma TwoSteps<K(!new), V(!new)>(c: Config<V>, a: Op<K, V>, b: Op<K, V>)
    ensures Run(c, [a, b]) == Step(c, Step(c, Empty(), a), b)
  {
    assert [a, b][..1] == [a] && [a][..0] == [];
    assert Run(c, [a]) == Step(c, Run(c, [a][..0]), a);
    assert Run(c, [a, b]) == Step(c, Run(c, [a, b][..1]), b);
  }

  /** Giving a resident key a value that is too heavy leaves the counter too high. */
  lemma DriftIsReached()
    ensures Run(SmallCache(), [DoSet("a", 2.0), DoSet("a", 5.0)]) == Drifted() && Drift(Drifted()) == 2.0
  {
    TwoSteps(SmallCache(), DoSet("a", 2.0), DoSet("a", 5.0));
    FirstIsAdmitted();
    SecondIsRefused();
  }

  /** From there on an accepted value is lost at once. */
  lemma DriftLosesAcceptedValue()
    ensures Set(SmallCache(), Drifted(), "b", 1.0).1 && Find(Set(SmallCache(), Drifted(), "b", 1.0).0.entries, "b") == None
  {
    assert Invariant(SmallCache(), Drifted());
    AcceptedIsResident(SmallCache(), Drifted(), "b", 1.0);
  }

  // ----- Hits are never stale -----

  /** The value a key was last given, unless it was refused, deleted or cleared away since. */
  function LastAdmitted<K(==, !new), V(!new)>(c: Config<V>, ops: seq<Op<K, V>>, key: K): Option<V> {
    if ops == [] then None
    else
      var before := LastAdmitted(c, ops[..|ops| - 1], key);
      match ops[|ops| - 1]
      case DoGet(_) => before
      case DoSet(k, v) => if k == key && c.enabled then (if ItemWeight(c, v).Some? then Some(v) else None) else before
      case DoDelete(k) => if k == key then None else before
      case DoClear => None
  }

  /** When the key was last asked for or given a value. */
  function LastUse<K(==, !new), V(!new)>(ops: seq<Op<K, V>>, key: K): nat {
    if ops == [] then 0
    else
      var op := ops[|ops| - 1];
      if (op.DoGet? || op.DoSet?) && op.key == key then |ops| else LastUse(ops[..|ops| - 1], key)
  }

  ghost predicate Fresh<K(!new), V(!new)>(c: Config<V>, ops: seq<Op<K, V>>, entries: seq<Entry<K, V>>) {
    forall e :: e in entries ==> LastAdmitted(c, ops, e.key) == Some(e.value)
  }

  ghost predicate ByLastUse<K(!new), V(!new)>(ops: seq<Op<K, V>>, entries: seq<Entry<K, V>>) {
    forall i, j :: 0 <= i < j < |entries| ==> LastUse(ops, entries[i].key) < LastUse(ops, entries[j].key)
  }

  lemma {:induction false} WithoutOrder<K(!new), V(!new)>(ops: seq<Op<K, V>>, entries: seq<Entry<K, V>>, key: K)
    requires ByLastUse(ops, entries)
    ensures ByLastUse(ops, Without(entries, key))
  {
    if entries != [] {
      var rest := entries[1..];
      WithoutOrder(ops, rest, key);
      if entries[0].key != key {
        forall e | e in rest ensures LastUse(ops, entries[0].key) < LastUse(ops, e.key) {
          var i :| 0 <= i < |rest| && rest[i] == e;
          assert entries[i + 1] == e;
        }
      }
    }
  }

  lemma {:induction false} LastUseBound<K(!new), V(!new)>(ops: seq<Op<K, V>>, key: K)
    ensures LastUse(ops, key) <= |ops|
  {
    if ops != [] { LastUseBound(ops[..|ops| - 1], key); }
  }

  /** Moving the key just used to the end keeps the order. */
  lemma UsedLast<K(!new), V(!new)>(before: seq<Op<K, V>>, op: Op<K, V>, entries: seq<Entry<K, V>>, e: Entry<K, V>)
    requires ByLastUse(before, entries) && (op.DoGet? || op.DoSet?) && op.key == e.key
    ensures ByLastUse(before + [op], Without(entries, e.key) + [e])
  {
    var ops := before + [op];
    assert ops[..|ops| - 1] == before;
    WithoutOrder(before, entries, e.key);
    var rest := Without(entries, e.key);
    forall x | x in rest ensures LastUse(ops, x.key) == LastUse(before, x.key) < LastUse(ops, e.key) {
      LastUseBound(before, x.key);
    }
  }

  lemma SubOrder<K(!new), V(!new)>(before: seq<Op<K, V>>, op: Op<K, V>, entries: seq<Entry<K, V>>)
    requires ByLastUse(before, entries)
    requires op.DoGet? || op.DoSet? ==> forall e :: e in entries ==> e.key != op.key
    ensures ByLastUse(before + [op], entries)
  {
    var ops := before + [op];
    assert ops[..|ops| - 1] == before;
    forall e | e in entries ensures LastUse(ops, e.key) == LastUse(before, e.key) {}
  }

  /** What a step leaves resident, before any eviction. */
  lemma StepIsFresh<K(!new), V(!new)>(c: Config<V>, before: seq<Op<K, V>>, op: Op<K, V>, s: State<K, V>)
    requires ValidConfig(c) && Invariant(c, s) && Fresh(c, before, s.entries) && ByLastUse(before, s.entries)
    requires c.enabled || s.entries == []
    ensures Fresh(c, before + [op], Step(c, s, op).entries) && ByLastUse(before + [op], Step(c, s, op).entries)
    ensures c.enabled || Step(c, s, op).entries == []
  {
    var ops := before + [op];
    assert ops[..|ops| - 1] == before && ops[|ops| - 1] == op;
    match op
    case DoClear =>
    case DoDelete(k) =>
      WithoutKeeps(s.entries, k);
      WithoutOrder(before, s.entries, k);
      SubOrder(before, op, Without(s.entries, k));
    case DoGet(k) =>
      if c.enabled && Find(s.entries, k).Some? {
        UsedLast(before, op, s.entries, Find(s.entries, k).value);
      } else {
        SubOrder(before, op, s.entries);
      }
    case DoSet(k, v) =>
      if c.enabled { SetIsFresh(c, before, k, v, s); }
  }

  lemma SuffixIsFresh<K(!new), V(!new)>(c: Config<V>, ops: seq<Op<K, V>>, entries: seq<Entry<K, V>>, j: nat)
    requires Fresh(c, ops, entries) && ByLastUse(ops, entries) && j <= |entries|
    ensures Fresh(c, ops, entries[j..]) && ByLastUse(ops, entries[j..])
  {}

  lemma SetIsFresh<K(!new), V(!new)>(c: Config<V>, before: seq<Op<K, V>>, k: K, v: V, s: State<K, V>)
    requires ValidConfig(c) && Invariant(c, s) && Fresh(c, before, s.entries) && ByLastUse(before, s.entries) && c.enabled
    ensures var ops := before + [DoSet(k, v)];
      Fresh(c, ops, Set(c, s, k, v).0.entries) && ByLastUse(ops, Set(c, s, k, v).0.entries)
  {
    var op := DoSet(k, v);
    var ops := before + [op];
    assert ops[..|ops| - 1] == before && ops[|ops| - 1] == op;
    match ItemWeight(c, v)
    case None =>
      WithoutOrder(before, s.entries, k);
      SubOrder(before, op, Without(s.entries, k));
    case Some(w) =>
      UsedLast(before, op, s.entries, Entry(k, v, w));
      AdmitKeeps(c, s, k, v, w);
      var j := EvictionIsMinimal(c, Admit(s, k, v, w));
      SuffixIsFresh(c, ops, Admit(s, k, v, w).entries, j);
  }

  /** Fresh and in order, folded. */
  ghost predicate Current<K(!new), V(!new)>(c: Config<V>, ops: seq<Op<K, V>>, s: State<K, V>) {
    forall key {:trigger Unlock(key)} :: Unlock(key) ==>
      Fresh(c, ops, s.entries) && ByLastUse(ops, s.entries) && (c.enabled || s.entries == [])
  }

  lemma EmptyIsCurrent<K(!new), V(!new)>(c: Config<V>)
    ensures Current(c, [], Empty<K, V>())
  {}

  lemma StepIsCurrent<K(!new), V(!new)>(c: Config<V>, before: seq<Op<K, V>>, op: Op<K, V>, s: State<K, V>)
    requires ValidConfig(c) && Invariant(c, s) && Current(c, before, s)
    ensures Current(c, before + [op], Step(c, s, op))
  {
    assert Unlock(true);
    StepIsFresh(c, before, op, s);
  }

  lemma {:induction false} RunIsCurrent<K(!new), V(!new)>(c: Config<V>, ops: seq<Op<K, V>>)
    requires ValidConfig(c)
    ensures Current(c, ops, Run(c, ops))
  {
    if ops == [] {
      EmptyIsCurrent<K, V>(c);
    } else {
      var before, op := ops[..|ops| - 1], ops[|ops| - 1];
      RunIsCurrent(c, before);
      RunKeeps(c, before);
      StepIsCurrent(c, before, op, Run(c, before));
      assert before + [op] == ops && Run(c, ops) == Step(c, Run(c, before), op);
    }
  }

  /** Over every run a resident entry holds the value its key was last given, and the entries stand in
      the order of their last use: the one evicted first is the least recently used. */
  lemma HitsAreFresh<K(!new), V(!new)>(c: Config<V>, ops: seq<Op<K, V>>)
    requires ValidConfig(c)
    ensures Fresh(c, ops, Run(c, ops).entries) && ByLastUse(ops, Run(c, ops).entries)
    ensures c.enabled || Run(c, ops).entries == []
  {
    RunIsCurrent(c, ops);
    assert Unlock(true);
  }

  /** A hit after any run returns the value last given to the key. */
  lemma HitIsLastAdmitted<K(!new), V(!new)>(c: Config<V>, ops: seq<Op<K, V>>, key: K)
    requires ValidConfig(c) && Get(c, Run(c, ops), key).1.Some?
    ensures Get(c, Run(c, ops), key).1 == LastAdmitted(c, ops, key)
  {
    HitsAreFresh(c, ops);
  }

  /** The drift is nothing as long as no resident key was offered a value that was refused. */
  ghost predicate NoResidentRefused<K(!new), V(!new)>(c: Config<V>, ops: seq<Op<K, V>>) {
    forall i :: 0 <= i < |ops| && ops[i].DoSet? && c.enabled && ItemWeight(c, ops[i].value).None? ==>
      Find(Run(c, ops[..i]).entries, ops[i].key).None?
  }

  lemma {:induction false} CounterIsExact<K(!new), V(!new)>(c: Config<V>, ops: seq<Op<K, V>>)
    requires ValidConfig(c) && NoResidentRefused(c, ops)
    ensures Drift(Run(c, ops)) == 0.0
  {
    if ops != [] {
      var before := ops[..|ops| - 1];
      forall i | 0 <= i < |before| ensures ops[..i] == before[..i] {}
      CounterIsExact(c, before);
      RunKeeps(c, before);
      StepKeeps(c, Run(c, before), ops[|ops| - 1]);
      assert ops[..|ops| - 1] == before;
    }
  }
}
