/** The one order canonical forms use: strings compared code unit by code unit, and sorting by it. */
module CodeUnitOrder {

  /** -1, 0 or 1, as the comparator `byCodeUnit` returns it. */
  function ByCodeUnit(left: string, right: string): int {
    if left == [] then (if right == [] then 0 else -1)
    else if right == [] then 1
    else if left[0] < right[0] then -1
    else if left[0] > right[0] then 1
    else ByCodeUnit(left[1..], right[1..])
  }

  predicate Le(a: string, b: string) {
    ByCodeUnit(a, b) <= 0
  }

  lemma {:induction false} ByCodeUnitZero(a: string, b: string)
    ensures -1 <= ByCodeUnit(a, b) <= 1
    ensures ByCodeUnit(a, b) == 0 <==> a == b
  {
    if a != [] && b != [] && a[0] == b[0] {
      ByCodeUnitZero(a[1..], b[1..]);
      assert a == [a[0]] + a[1..] && b == [b[0]] + b[1..];
    }
  }

  lemma {:induction false} ByCodeUnitFlip(a: string, b: string)
    ensures ByCodeUnit(a, b) == -ByCodeUnit(b, a)
  {
    if a != [] && b != [] && a[0] == b[0] { ByCodeUnitFlip(a[1..], b[1..]); }
  }

  lemma {:induction false} LeTransitive(a: string, b: string, c: string)
    requires Le(a, b) && Le(b, c)
    ensures Le(a, c)
  {
    if a != [] && b != [] && c != [] && a[0] == b[0] == c[0] {
      LeTransitive(a[1..], b[1..], c[1..]);
    }
  }

  /** `a` starts `b`, or has the smaller character where the two first differ. */
  ghost predicate NotAfter(a: string, b: string) {
    a <= b || exists k :: DiffersAt(a, b, k) && a[k] < b[k]
  }

  ghost predicate DiffersAt(a: string, b: string, k: int) {
    0 <= k < |a| && k < |b| && a[..k] == b[..k] && a[k] != b[k]
  }

  lemma DiffersLater(a: string, b: string, k: nat)
    requires a != [] && b != [] && a[0] == b[0]
    ensures DiffersAt(a, b, k + 1) <==> DiffersAt(a[1..], b[1..], k)
  {
    if k + 1 <= |a| && k + 1 <= |b| {
      assert a[..k + 1] == [a[0]] + a[1..][..k] && b[..k + 1] == [b[0]] + b[1..][..k];
      assert a[..k + 1][1..] == a[1..][..k] && b[..k + 1][1..] == b[1..][..k];
    }
  }

  lemma TailNotAfter(a: string, b: string)
    requires a != [] && b != [] && a[0] == b[0]
    ensures NotAfter(a, b) <==> NotAfter(a[1..], b[1..])
  {
    assert a == [a[0]] + a[1..] && b == [b[0]] + b[1..];
    if k :| DiffersAt(a, b, k) && a[k] < b[k] {
      assert k > 0;
      DiffersLater(a, b, k - 1);
      assert DiffersAt(a[1..], b[1..], k - 1);
    }
    if k :| DiffersAt(a[1..], b[1..], k) && a[1..][k] < b[1..][k] {
      DiffersLater(a, b, k);
      assert DiffersAt(a, b, k + 1);
    }
  }

  lemma NoLaterDifference(a: string, b: string, k: nat)
    requires a != [] && b != [] && a[0] != b[0] && k > 0
    ensures !DiffersAt(a, b, k)
  {
    if k <= |a| && k <= |b| { assert a[..k][0] == a[0] && b[..k][0] == b[0]; }
  }

  /** The order is the one of the first differing character, a prefix standing first. */
  lemma {:induction false} LeMeans(a: string, b: string)
    ensures Le(a, b) <==> NotAfter(a, b)
  {
    if a != [] && b != [] {
      if a[0] == b[0] {
        TailNotAfter(a, b);
        LeMeans(a[1..], b[1..]);
      } else {
        assert DiffersAt(a, b, 0);
        forall k: nat | k > 0 ensures !DiffersAt(a, b, k) { NoLaterDifference(a, b, k); }
      }
    }
  }

  /** Every string stands after the ones before it. */
  ghost predicate Ascending(s: seq<string>) {
    forall i, j :: 0 <= i < j < |s| ==> NotAfter(s[i], s[j]) && s[i] != s[j]
  }

  lemma SortedAscends(s: seq<string>)
    requires Sorted(s, Le) && Distinct(s)
    ensures Ascending(s)
  {
    forall i, j | 0 <= i < j < |s| ensures NotAfter(s[i], s[j]) && s[i] != s[j] { LeMeans(s[i], s[j]); }
  }

  ghost predicate TotalPreorder<T(!new)>(le: (T, T) -> bool) {
    && (forall x, y :: le(x, y) || le(y, x))
    && (forall x, y, z :: le(x, y) && le(y, z) ==> le(x, z))
  }

  ghost predicate TotalOrder<T(!new)>(le: (T, T) -> bool) {
    && TotalPreorder(le)
    && (forall x, y :: le(x, y) && le(y, x) ==> x == y)
  }

  lemma LeIsTotalOrder()
    ensures TotalOrder(Le)
  {
    forall x: string, y: string ensures (Le(x, y) || Le(y, x)) && (Le(x, y) && Le(y, x) ==> x == y) {
      ByCodeUnitFlip(x, y);
      ByCodeUnitZero(x, y);
    }
    forall x: string, y: string, z: string | Le(x, y) && Le(y, z) ensures Le(x, z) {
      LeTransitive(x, y, z);
    }
  }

  ghost predicate Sorted<T>(s: seq<T>, le: (T, T) -> bool) {
    forall i, j :: 0 <= i < j < |s| ==> le(s[i], s[j])
  }

  ghost predicate Distinct<T>(s: seq<T>) {
    forall i, j :: 0 <= i < j < |s| ==> s[i] != s[j]
  }

  function Insert<T>(x: T, s: seq<T>, le: (T, T) -> bool): (r: seq<T>)
    ensures multiset(r) == multiset([x]) + multiset(s)
    ensures |r| == |s| + 1
  {
    if s == [] then [x]
    else if le(x, s[0]) then [x] + s
    else
      assert s == [s[0]] + s[1..];
      [s[0]] + Insert(x, s[1..], le)
  }

  /** The array sort of the source: some arrangement of the same elements, in order. */
  function Sort<T>(s: seq<T>, le: (T, T) -> bool): (r: seq<T>)
    ensures multiset(r) == multiset(s)
    ensures |r| == |s|
  {
    if s == [] then []
    else
      assert s == [s[0]] + s[1..];
      Insert(s[0], Sort(s[1..], le), le)
  }

  lemma SameElements<T>(s: seq<T>, t: seq<T>)
    requires multiset(s) == multiset(t)
    ensures forall x :: x in s <==> x in t
  {
    forall x ensures x in s <==> x in t {
      assert x in s <==> x in multiset(s);
      assert x in t <==> x in multiset(t);
    }
  }

  lemma {:induction false} InsertSorted<T(!new)>(x: T, s: seq<T>, le: (T, T) -> bool)
    requires TotalPreorder(le) && Sorted(s, le)
    ensures Sorted(Insert(x, s, le), le)
  {
    if s != [] && !le(x, s[0]) {
      InsertSorted(x, s[1..], le);
      var t := Insert(x, s[1..], le);
      SameElements(t, [x] + s[1..]);
      forall y | y in t ensures le(s[0], y) {
        if y != x { var i :| 0 <= i < |s[1..]| && s[1..][i] == y; assert s[i + 1] == y; }
      }
    }
  }

  lemma {:induction false} SortSorted<T(!new)>(s: seq<T>, le: (T, T) -> bool)
    requires TotalPreorder(le)
    ensures Sorted(Sort(s, le), le)
  {
    if s != [] {
      SortSorted(s[1..], le);
      InsertSorted(s[0], Sort(s[1..], le), le);
    }
  }

  lemma {:induction false} SortKeepsElements<T(!new)>(s: seq<T>, le: (T, T) -> bool)
    ensures forall x :: x in s <==> x in Sort(s, le)
    ensures Distinct(s) ==> Distinct(Sort(s, le))
  {
    SameElements(s, Sort(s, le));
    if Distinct(s) {
      DistinctIsSingle(s);
      SingleIsDistinct(Sort(s, le));
    }
  }

  lemma {:induction false} InsertPlace<T(!new)>(x: T, s: seq<T>, le: (T, T) -> bool) returns (k: nat)
    ensures k <= |s| && Insert(x, s, le) == s[..k] + [x] + s[k..]
    ensures forall i :: 0 <= i < k ==> !le(x, s[i])
  {
    k := 0;
    if s != [] && !le(x, s[0]) {
      var j := InsertPlace(x, s[1..], le);
      k := j + 1;
      assert s[..k] == [s[0]] + s[1..][..j] && s[k..] == s[1..][j..];
      forall i | 0 <= i < k ensures !le(x, s[i]) {
        if i > 0 { assert s[i] == s[1..][i - 1]; }
      }
    }
  }

  /** Where the elements of a sorted sequence come from: every place once, and of elements that the order
      ties, the one that was first stays first. */
  ghost predicate Arranges<T(!new)>(s: seq<T>, t: seq<T>, le: (T, T) -> bool, from: seq<nat>) {
    && |from| == |t| == |s| && (forall i :: 0 <= i < |t| ==> from[i] < |s| && t[i] == s[from[i]])
    && (forall k: nat :: k < |s| ==> k in from)
    && (forall i, j :: 0 <= i < j < |t| && le(t[j], t[i]) ==> from[i] < from[j])
  }

  /** The sort is stable. */
  lemma {:induction false} SortIsStable<T(!new)>(s: seq<T>, le: (T, T) -> bool) returns (from: seq<nat>)
    ensures Arranges(s, Sort(s, le), le, from)
  {
    if s == [] {
      from := [];
    } else {
      var rest := SortIsStable(s[1..], le);
      var k := InsertPlace(s[0], Sort(s[1..], le), le);
      from := MakeRoom(rest, k);
      PlacesArranged(s, Sort(s[1..], le), le, rest, k, from);
      AllArranged(|s|, rest, k, from);
      TiesArranged(s, Sort(s[1..], le), le, rest, k, from);
    }
  }

  /** The places `rest` moved on by one, with a zero put in at `k`. */
  ghost predicate Widened(rest: seq<nat>, k: nat, from: seq<nat>) {
    && |from| == |rest| + 1 && k < |from| && from[k] == 0
    && forall i :: 0 <= i < |from| && i != k ==> from[i] == rest[if i < k then i else i - 1] + 1
  }

  lemma MakeRoom(rest: seq<nat>, k: nat) returns (from: seq<nat>)
    requires k <= |rest|
    ensures Widened(rest, k, from)
  {
    from := seq(|rest| + 1, i requires 0 <= i <= |rest| => if i < k then rest[i] + 1 else if i == k then 0 else rest[i - 1] + 1);
  }

  lemma PlacesArranged<T(!new)>(s: seq<T>, t: seq<T>, le: (T, T) -> bool, rest: seq<nat>, k: nat, from: seq<nat>)
    requires s != [] && Arranges(s[1..], t, le, rest) && Widened(rest, k, from)
    ensures var more := t[..k] + [s[0]] + t[k..]; forall i :: 0 <= i < |more| ==> from[i] < |s| && more[i] == s[from[i]]
  {
    var more := t[..k] + [s[0]] + t[k..];
    forall i | 0 <= i < |more| ensures from[i] < |s| && more[i] == s[from[i]] {
      if i != k {
        var j := if i < k then i else i - 1;
        assert more[i] == t[j] == s[1..][rest[j]];
      }
    }
  }

  lemma AllArranged(n: nat, rest: seq<nat>, k: nat, from: seq<nat>)
    requires n > 0 && Widened(rest, k, from) && forall i: nat :: i < n - 1 ==> i in rest
    ensures forall i: nat :: i < n ==> i in from
  {
    forall i: nat | i < n ensures i in from {
      if i > 0 {
        assert (i - 1) as nat in rest;
        var j :| 0 <= j < |rest| && rest[j] == i - 1;
        assert from[if j < k then j else j + 1] == i;
      } else {
        assert from[k] == 0;
      }
    }
  }

  lemma TiesArranged<T(!new)>(s: seq<T>, t: seq<T>, le: (T, T) -> bool, rest: seq<nat>, k: nat, from: seq<nat>)
    requires s != [] && |t| == |rest| && Widened(rest, k, from) && forall i :: 0 <= i < k ==> !le(s[0], t[i])
    requires forall i, j :: 0 <= i < j < |t| && le(t[j], t[i]) ==> rest[i] < rest[j]
    ensures var more := t[..k] + [s[0]] + t[k..]; forall i, j :: 0 <= i < j < |more| && le(more[j], more[i]) ==> from[i] < from[j]
  {}

  lemma {:induction false} DistinctIsSingle<T(!new)>(s: seq<T>)
    requires Distinct(s)
    ensures forall x :: multiset(s)[x] <= 1
  {
    if s != [] {
      assert s == [s[0]] + s[1..];
      DistinctIsSingle(s[1..]);
      assert s[0] !in s[1..];
    }
  }

  lemma SingleIsDistinct<T(!new)>(s: seq<T>)
    requires forall x :: multiset(s)[x] <= 1
    ensures Distinct(s)
  {
    forall i, j | 0 <= i < j < |s| ensures s[i] != s[j] {
      assert s == s[..j] + [s[j]] + s[j + 1..];
      assert multiset(s) == multiset(s[..j]) + multiset{s[j]} + multiset(s[j + 1..]);
      assert s[..j][i] == s[i] && s[i] in multiset(s[..j]);
      assert multiset(s)[s[i]] >= multiset(s[..j])[s[i]] + multiset{s[j]}[s[i]];
    }
  }

  /** Two arrangements of the same elements, both sorted by an order that never ties two different
      ones of them, are the same sequence. */
  lemma {:induction false} SortedUnique<T(!new)>(s: seq<T>, t: seq<T>, le: (T, T) -> bool)
    requires TotalPreorder(le) && Sorted(s, le) && Sorted(t, le) && multiset(s) == multiset(t)
    requires forall x, y :: x in s && y in s && le(x, y) && le(y, x) ==> x == y
    ensures s == t
  {
    assert |s| == |multiset(s)| == |multiset(t)| == |t|;
    if s != [] {
      SameElements(s, t);
      LeastFirst(s, t[0], le);
      LeastFirst(t, s[0], le);
      assert s == [s[0]] + s[1..] && t == [t[0]] + t[1..];
      assert multiset(s[1..]) == multiset(s) - multiset{s[0]};
      assert multiset(t[1..]) == multiset(t) - multiset{t[0]};
      SortedUnique(s[1..], t[1..], le);
    }
  }

  lemma LeastFirst<T(!new)>(s: seq<T>, x: T, le: (T, T) -> bool)
    requires TotalPreorder(le) && Sorted(s, le) && x in s
    ensures le(s[0], x)
  {
    var i :| 0 <= i < |s| && s[i] == x;
    assert le(s[0], s[0]);
  }

  /** Without repetitions, having the same elements is having the same multiset of elements. */
  lemma DistinctSameElements<T(!new)>(s: seq<T>, t: seq<T>)
    requires Distinct(s) && Distinct(t) && forall x :: x in s <==> x in t
    ensures multiset(s) == multiset(t)
  {
    DistinctIsSingle(s);
    DistinctIsSingle(t);
    forall x ensures multiset(s)[x] == multiset(t)[x] {
      assert x in multiset(s) <==> x in s;
      assert x in multiset(t) <==> x in t;
    }
  }

  /** Pairs in lexicographic order. */
  predicate PairLe(a: (string, string), b: (string, string)) {
    if a.0 != b.0 then Le(a.0, b.0) else Le(a.1, b.1)
  }

  lemma PairLeIsTotalOrder()
    ensures TotalOrder(PairLe)
  {
    LeIsTotalOrder();
  }

  function Members(c: seq<string>): set<string> {
    set x | x in c
  }
}
