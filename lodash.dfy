/** The two lodash utilities the controllers call: `_.sortBy` (a stable sort
    by a computed key) and `_.indexOf(array, value, true)` (a binary search
    in an array the caller promises is sorted). */
module Lodash {
  import opened Js

  // ------------------------------------------------------------ _.sortBy

  /** Key `keys[i]` sorts no later than key `keys[j]`. */
  predicate KeyLe(keys: seq<string>, i: nat, j: nat)
    requires i < |keys| && j < |keys|
  {
    !Less(keys[j], keys[i])
  }

  predicate InRange(o: seq<nat>, n: nat)
  {
    forall k :: 0 <= k < |o| ==> o[k] < n
  }

  /** Positions taken in the order `o`: the sequence a reordering produces. */
  function Pick<T>(s: seq<T>, o: seq<nat>): (r: seq<T>)
    requires InRange(o, |s|)
    ensures |r| == |o|
    ensures forall k :: 0 <= k < |o| ==> r[k] == s[o[k]]
  {
    seq(|o|, k requires 0 <= k < |o| => s[o[k]])
  }

  /** Every index occurs at most once. */
  predicate Distinct(o: seq<nat>)
  {
    forall a, b :: 0 <= a < b < |o| ==> o[a] != o[b]
  }

  /** Indices ordered so that their keys never decrease. */
  predicate OrderedByKey(keys: seq<string>, o: seq<nat>)
    requires InRange(o, |keys|)
  {
    forall a, b :: 0 <= a < b < |o| ==> KeyLe(keys, o[a], o[b])
  }

  /** Indices with equal keys keep their original relative order. */
  predicate Stable(keys: seq<string>, o: seq<nat>)
    requires InRange(o, |keys|)
  {
    forall a, b :: 0 <= a < b < |o| && keys[o[a]] == keys[o[b]] ==> o[a] < o[b]
  }

  /** One step of the sort: index `x` goes after every index whose key is not
      greater than its own. */
  function Insert(keys: seq<string>, o: seq<nat>, x: nat): (r: seq<nat>)
    requires InRange(o, |keys|) && x < |keys|
    ensures InRange(r, |keys|)
    ensures multiset(r) == multiset(o) + multiset{x}
  {
    if o == [] then [x]
    else if Less(keys[x], keys[o[0]]) then [x] + o
    else
      assert o == [o[0]] + o[1..];
      [o[0]] + Insert(keys, o[1..], x)
  }

  /** The order in which `_.sortBy` places the first `k` elements whose keys are
      `keys`: ascending by key, ties broken by original position. */
  function OrderOf(keys: seq<string>, k: nat): (o: seq<nat>)
    requires k <= |keys|
    ensures |o| == k && InRange(o, k) && InRange(o, |keys|)
    ensures Distinct(o)
  {
    if k == 0 then []
    else
      var prev := OrderOf(keys, k - 1);
      var o := Insert(keys, prev, k - 1);
      InsertKeepsBelow(keys, prev, k - 1, k);
      InsertKeepsDistinct(keys, prev, k - 1);
      o
  }

  /** The order in which `_.sortBy` places elements whose keys are `keys`. */
  function SortByOrder(keys: seq<string>): (o: seq<nat>)
    ensures |o| == |keys| && InRange(o, |keys|)
  {
    OrderOf(keys, |keys|)
  }

  lemma {:induction false} InsertKeepsBelow(keys: seq<string>, o: seq<nat>, x: nat, n: nat)
    requires InRange(o, |keys|) && x < |keys|
    requires InRange(o, n) && x < n
    ensures InRange(Insert(keys, o, x), n)
  {
    var r := Insert(keys, o, x);
    forall k | 0 <= k < |r| ensures r[k] < n {
      assert r[k] in multiset(r);
    }
  }

  lemma {:induction false} InsertKeepsDistinct(keys: seq<string>, o: seq<nat>, x: nat)
    requires InRange(o, |keys|) && x < |keys|
    requires Distinct(o) && x !in o
    ensures Distinct(Insert(keys, o, x))
  {
    if o != [] && !Less(keys[x], keys[o[0]]) {
      var rest := Insert(keys, o[1..], x);
      InsertKeepsDistinct(keys, o[1..], x);
      assert o[0] !in multiset(rest) by {
        assert multiset(rest) == multiset(o[1..]) + multiset{x};
        assert o[0] !in o[1..];
      }
    }
  }

  /** `a <= b` and `b < c` give `a < c`. */
  lemma {:induction false} LeLessTransitive(a: string, b: string, c: string)
    requires !Less(b, a) && Less(b, c)
    ensures Less(a, c)
  {
    LessTotal(a, b);
    if a != b {
      LessTransitive(a, b, c);
    }
  }

  lemma {:induction false} InsertOrdered(keys: seq<string>, o: seq<nat>, x: nat)
    requires InRange(o, |keys|) && x < |keys|
    requires OrderedByKey(keys, o)
    ensures OrderedByKey(keys, Insert(keys, o, x))
  {
    if o == [] {
    } else if Less(keys[x], keys[o[0]]) {
      InsertOrderedFront(keys, o, x);
    } else {
      assert forall a, b :: 0 <= a < b < |o[1..]| ==> o[1..][a] == o[a + 1] && o[1..][b] == o[b + 1];
      InsertOrdered(keys, o[1..], x);
      InsertOrderedRest(keys, o, x);
    }
  }

  lemma {:induction false} InsertOrderedFront(keys: seq<string>, o: seq<nat>, x: nat)
    requires InRange(o, |keys|) && x < |keys| && o != []
    requires OrderedByKey(keys, o) && Less(keys[x], keys[o[0]])
    ensures OrderedByKey(keys, [x] + o)
  {
    var r := [x] + o;
    forall b | 0 < b < |r| ensures KeyLe(keys, x, r[b]) {
      var y := o[b - 1];
      if b > 1 {
        assert KeyLe(keys, o[0], y);
        LessTotal(keys[o[0]], keys[y]);
        if keys[o[0]] != keys[y] {
          LessTransitive(keys[x], keys[o[0]], keys[y]);
        }
        LessAsymmetric(keys[x], keys[y]);
      } else {
        LessAsymmetric(keys[x], keys[o[0]]);
      }
    }
    forall a, b | 0 < a < b < |r| ensures KeyLe(keys, r[a], r[b]) {
      assert r[a] == o[a - 1] && r[b] == o[b - 1];
    }
  }

  lemma {:induction false} InsertOrderedRest(keys: seq<string>, o: seq<nat>, x: nat)
    requires InRange(o, |keys|) && x < |keys| && o != []
    requires OrderedByKey(keys, o) && !Less(keys[x], keys[o[0]])
    requires OrderedByKey(keys, Insert(keys, o[1..], x))
    ensures OrderedByKey(keys, [o[0]] + Insert(keys, o[1..], x))
  {
    var rest := Insert(keys, o[1..], x);
    var r := [o[0]] + rest;
    HeadBeforeInsert(keys, o, x);
    forall a, b | 0 <= a < b < |r| ensures KeyLe(keys, r[a], r[b]) {
      if a > 0 {
        assert r[a] == rest[a - 1] && r[b] == rest[b - 1];
      } else {
        assert r[0] == o[0] && r[b] == rest[b - 1];
        assert KeyLe(keys, o[0], rest[b - 1]);
      }
    }
  }

  /** The head of an ordered `o` sorts no later than anything inserted
      behind it. */
  lemma {:induction false} HeadBeforeInsert(keys: seq<string>, o: seq<nat>, x: nat)
    requires InRange(o, |keys|) && x < |keys| && o != []
    requires OrderedByKey(keys, o) && !Less(keys[x], keys[o[0]])
    ensures forall b :: 0 <= b < |Insert(keys, o[1..], x)| ==> KeyLe(keys, o[0], Insert(keys, o[1..], x)[b])
  {
    var rest := Insert(keys, o[1..], x);
    forall b | 0 <= b < |rest| ensures KeyLe(keys, o[0], rest[b]) {
      var y := rest[b];
      InsertMember(keys, o[1..], x, y);
      if y != x {
        var c :| 0 <= c < |o[1..]| && o[1..][c] == y;
        assert o[c + 1] == y;
      }
    }
  }

  /** An element of `Insert(keys, o, x)` is `x` or an element of `o`. */
  lemma {:induction false} InsertMember(keys: seq<string>, o: seq<nat>, x: nat, y: nat)
    requires InRange(o, |keys|) && x < |keys|
    requires y in Insert(keys, o, x)
    ensures y == x || y in o
  {
    assert y in multiset(Insert(keys, o, x));
  }

  lemma {:induction false} InsertStableFront(keys: seq<string>, o: seq<nat>, x: nat)
    requires InRange(o, |keys|) && x < |keys| && o != []
    requires OrderedByKey(keys, o) && Stable(keys, o)
    requires Less(keys[x], keys[o[0]])
    ensures Stable(keys, [x] + o)
  {
    var r := [x] + o;
    LessIrreflexive(keys[x]);
    forall b | 0 < b < |r| ensures keys[x] != keys[r[b]] {
      var y := o[b - 1];
      if b > 1 {
        assert KeyLe(keys, o[0], y);
        LessTotal(keys[o[0]], keys[y]);
        if keys[o[0]] != keys[y] {
          LessTransitive(keys[x], keys[o[0]], keys[y]);
        }
      }
    }
    forall a, b | 0 <= a < b < |r| && keys[r[a]] == keys[r[b]] ensures r[a] < r[b] {
      if a > 0 {
        assert r[a] == o[a - 1] && r[b] == o[b - 1];
      }
    }
  }

  lemma {:induction false} InsertStableRest(keys: seq<string>, o: seq<nat>, x: nat)
    requires InRange(o, |keys|) && x < |keys| && o != []
    requires Stable(keys, o)
    requires InRange(o, x)
    requires Stable(keys, Insert(keys, o[1..], x))
    ensures Stable(keys, [o[0]] + Insert(keys, o[1..], x))
  {
    var rest := Insert(keys, o[1..], x);
    var r := [o[0]] + rest;
    forall a, b | 0 <= a < b < |r| && keys[r[a]] == keys[r[b]] ensures r[a] < r[b] {
      if a > 0 {
        assert r[a] == rest[a - 1] && r[b] == rest[b - 1];
      } else {
        var y := rest[b - 1];
        InsertMember(keys, o[1..], x, y);
        if y != x {
          var c :| 0 <= c < |o[1..]| && o[1..][c] == y;
          assert o[c + 1] == y;
        }
      }
    }
  }

  lemma {:induction false} InsertStable(keys: seq<string>, o: seq<nat>, x: nat)
    requires InRange(o, |keys|) && x < |keys|
    requires OrderedByKey(keys, o) && Stable(keys, o)
    requires InRange(o, x)
    ensures Stable(keys, Insert(keys, o, x))
  {
    if o == [] {
    } else if Less(keys[x], keys[o[0]]) {
      InsertStableFront(keys, o, x);
    } else {
      assert forall a, b :: 0 <= a < b < |o[1..]| ==> o[1..][a] == o[a + 1] && o[1..][b] == o[b + 1];
      InsertStable(keys, o[1..], x);
      InsertStableRest(keys, o, x);
    }
  }

  /** `_.sortBy` puts keys in ascending order. */
  lemma {:induction false} OrderSorted(keys: seq<string>, k: nat)
    requires k <= |keys|
    ensures OrderedByKey(keys, OrderOf(keys, k))
  {
    if k > 0 {
      OrderSorted(keys, k - 1);
      OrderedStep(keys, k);
    }
  }

  /** `_.sortBy` is stable: equal keys keep their original relative order. */
  lemma {:induction false} OrderStable(keys: seq<string>, k: nat)
    requires k <= |keys|
    ensures Stable(keys, OrderOf(keys, k))
  {
    if k > 0 {
      OrderStable(keys, k - 1);
      StableStep(keys, k);
    }
  }

  /** One more element of `_.sortBy`'s order is one more insertion. */
  lemma {:induction false} OrderStep(keys: seq<string>, k: nat)
    requires 0 < k <= |keys|
    ensures OrderOf(keys, k) == Insert(keys, OrderOf(keys, k - 1), k - 1)
  {
  }

  lemma {:induction false} OrderedStep(keys: seq<string>, k: nat)
    requires 0 < k <= |keys|
    requires OrderedByKey(keys, OrderOf(keys, k - 1))
    ensures OrderedByKey(keys, OrderOf(keys, k))
  {
    InsertOrdered(keys, OrderOf(keys, k - 1), k - 1);
    OrderStep(keys, k);
  }

  lemma {:induction false} StableStep(keys: seq<string>, k: nat)
    requires 0 < k <= |keys|
    requires Stable(keys, OrderOf(keys, k - 1))
    ensures Stable(keys, OrderOf(keys, k))
  {
    var prev := OrderOf(keys, k - 1);
    OrderSorted(keys, k - 1);
    InsertStable(keys, prev, k - 1);
    OrderStep(keys, k);
  }

  lemma {:induction false} PickCons<T>(s: seq<T>, x: nat, o: seq<nat>)
    requires x < |s| && InRange(o, |s|)
    ensures Pick(s, [x] + o) == [s[x]] + Pick(s, o)
  {
  }

  lemma {:induction false} PickInsert<T>(s: seq<T>, o: seq<nat>, x: nat, keys: seq<string>)
    requires |keys| == |s| && InRange(o, |s|) && x < |s|
    ensures multiset(Pick(s, Insert(keys, o, x))) == multiset(Pick(s, o)) + multiset{s[x]}
  {
    if o == [] {
      assert Pick(s, [x]) == [s[x]];
    } else {
      assert o == [o[0]] + o[1..];
      PickCons(s, o[0], o[1..]);
      if Less(keys[x], keys[o[0]]) {
        PickCons(s, x, o);
      } else {
        var rest := Insert(keys, o[1..], x);
        PickInsert(s, o[1..], x, keys);
        PickCons(s, o[0], rest);
        calc {
          multiset(Pick(s, Insert(keys, o, x)));
          multiset([s[o[0]]] + Pick(s, rest));
          multiset([s[o[0]]]) + multiset(Pick(s, rest));
          multiset([s[o[0]]]) + multiset(Pick(s, o[1..])) + multiset{s[x]};
          multiset([s[o[0]]] + Pick(s, o[1..])) + multiset{s[x]};
          multiset(Pick(s, o)) + multiset{s[x]};
        }
      }
    }
  }

  lemma {:induction false} TakeLast<T>(s: seq<T>, k: nat)
    requires 0 < k <= |s|
    ensures s[..k] == s[..k - 1] + [s[k - 1]]
  {
  }

  /** Reordering by `_.sortBy` is a permutation of the first `k` elements. */
  lemma {:induction false} OrderPermutes<T>(s: seq<T>, keys: seq<string>, k: nat)
    requires |keys| == |s| && k <= |s|
    ensures multiset(Pick(s, OrderOf(keys, k))) == multiset(s[..k])
  {
    if k > 0 {
      var prev := OrderOf(keys, k - 1);
      OrderPermutes(s, keys, k - 1);
      PickInsert(s, prev, k - 1, keys);
      calc {
        multiset(Pick(s, OrderOf(keys, k)));
        multiset(Pick(s, Insert(keys, prev, k - 1)));
        multiset(Pick(s, prev)) + multiset{s[k - 1]};
        multiset(s[..k - 1]) + multiset{s[k - 1]};
        { TakeLast(s, k); }
        multiset(s[..k]);
      }
    }
  }

  /** `_.sortBy` returns a permutation of the collection it sorts. */
  lemma {:induction false} SortByPermutes<T>(s: seq<T>, keys: seq<string>)
    requires |keys| == |s|
    ensures multiset(Pick(s, SortByOrder(keys))) == multiset(s)
  {
    OrderPermutes(s, keys, |s|);
    assert s[..|s|] == s;
  }

  /** The identity order on the first `k` positions. */
  function Identity(k: nat): (o: seq<nat>)
    ensures |o| == k && forall i :: 0 <= i < k ==> o[i] == i
  {
    seq(k, i => i)
  }

  lemma {:induction false} InsertLast(keys: seq<string>, o: seq<nat>, x: nat)
    requires InRange(o, |keys|) && x < |keys|
    requires forall k :: 0 <= k < |o| ==> KeyLe(keys, o[k], x)
    ensures Insert(keys, o, x) == o + [x]
  {
    if o != [] {
      InsertLast(keys, o[1..], x);
      assert o == [o[0]] + o[1..];
    }
  }

  /** The identity order grows by its next position. */
  lemma {:induction false} IdentityGrows(k: nat)
    requires k > 0
    ensures Identity(k - 1) + [k - 1] == Identity(k)
  {
  }

  /** `_.sortBy` leaves keys that are already in ascending order where they are. */
  lemma {:induction false} OrderOfSorted(keys: seq<string>, k: nat)
    requires k <= |keys|
    requires forall i, j :: 0 <= i < j < |keys| ==> KeyLe(keys, i, j)
    ensures OrderOf(keys, k) == Identity(k)
  {
    if k > 0 {
      var prev := Identity(k - 1);
      OrderOfSorted(keys, k - 1);
      assert OrderOf(keys, k) == Insert(keys, prev, k - 1);
      forall j | 0 <= j < |prev| ensures KeyLe(keys, prev[j], k - 1) {
        assert prev[j] == j;
      }
      InsertLast(keys, prev, k - 1);
      IdentityGrows(k);
    }
  }

  // -------------------------------------------------- _.indexOf(a, v, true)

  /** Non-decreasing. */
  predicate Ascending(a: seq<int>)
  {
    forall i, j :: 0 <= i < j < |a| ==> a[i] <= a[j]
  }

  /** lodash's `sortedIndex` binary search on `[low, high)`: the loop moves
      `low` past every middle element smaller than `v`; the midpoint is
      `(low + high) >>> 1`. */
  function SortedIndex(a: seq<int>, v: int, low: nat, high: nat): (r: nat)
    requires low <= high <= |a|
    ensures low <= r <= high
    decreases high - low
  {
    if low < high then
      var mid := (low + high) / 2;
      if a[mid] < v then SortedIndex(a, v, mid + 1, high) else SortedIndex(a, v, low, mid)
    else low
  }

  /** `_.indexOf(a, v, true)`: the position the binary search lands on when
      it holds `v`, otherwise -1. An absent (`undefined`) value is never
      found. */
  function SortedIndexOf(a: seq<int>, v: Option<int>): (r: int)
    ensures r == -1 || (0 <= r < |a| && v == Some(a[r]))
  {
    match v
    case None => -1
    case Some(x) =>
      var i := SortedIndex(a, x, 0, |a|);
      if i < |a| && a[i] == x then i else -1
  }

  /** On a sorted array the binary search finds the first position whose
      element is not smaller than `v`. */
  lemma {:induction false} SortedIndexIsLowerBound(a: seq<int>, v: int, low: nat, high: nat)
    requires low <= high <= |a| && Ascending(a)
    requires forall j :: 0 <= j < low ==> a[j] < v
    requires forall j :: high <= j < |a| ==> v <= a[j]
    ensures var r := SortedIndex(a, v, low, high);
      (forall j :: 0 <= j < r ==> a[j] < v) && (forall j :: r <= j < |a| ==> v <= a[j])
    decreases high - low
  {
    if low < high {
      var mid := (low + high) / 2;
      if a[mid] < v {
        SortedIndexIsLowerBound(a, v, mid + 1, high);
      } else {
        SortedIndexIsLowerBound(a, v, low, mid);
      }
    }
  }

  /** On a sorted array, `_.indexOf(a, v, true)` is the first position of `v`,
      and -1 exactly when `v` does not occur. */
  lemma {:induction false} SortedIndexOfFindsFirst(a: seq<int>, v: int)
    requires Ascending(a)
    ensures var r := SortedIndexOf(a, Some(v));
      && (r == -1 <==> v !in a)
      && (r >= 0 ==> a[r] == v && v !in a[..r])
  {
    SortedIndexIsLowerBound(a, v, 0, |a|);
  }
}
