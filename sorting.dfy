/**
 * `list.sort(key=..., reverse=True)` as the reconciler uses it: a stable sort into
 * descending order of a date key. Python's sort is stable also when reversed, so
 * elements with equal keys keep their original relative order; the insertion sort
 * below has the same result.
 */
module Sorting {
  import opened Wrappers
  import opened Instants

  /** Most recent first: no element is earlier than one behind it. */
  ghost predicate SortedDescending<T>(s: seq<T>, key: T -> Instant) {
    forall i, j :: 0 <= i < j < |s| ==> AtOrBefore(key(s[j]), key(s[i]))
  }

  /** Place `x` in front of the first element that is not later than it. */
  function Insert<T>(x: T, s: seq<T>, key: T -> Instant): (r: seq<T>)
    ensures multiset(r) == multiset(s) + multiset{x}
  {
    if |s| == 0 || AtOrBefore(key(s[0]), key(x)) then [x] + s
    else
      assert s == [s[0]] + s[1..];
      [s[0]] + Insert(x, s[1..], key)
  }

  lemma {:induction false} InsertSorted<T>(x: T, s: seq<T>, key: T -> Instant)
    requires SortedDescending(s, key)
    ensures SortedDescending(Insert(x, s, key), key)
    decreases |s|
  {
    if |s| == 0 || AtOrBefore(key(s[0]), key(x)) {
      forall k | 0 <= k < |s| ensures AtOrBefore(key(s[k]), key(x)) {
        if k > 0 {
          AtOrBeforeTransitive(key(s[k]), key(s[0]), key(x));
        }
      }
      ConsSorted(x, s, key);
    } else {
      NotAtOrBeforeIsAfter(key(s[0]), key(x));
      InsertSorted(x, s[1..], key);
      InsertBelow(x, s[1..], key, key(s[0]));
      ConsSorted(s[0], Insert(x, s[1..], key), key);
    }
  }

  /** An element no earlier than everything behind it can head a sorted sequence. */
  lemma {:induction false} ConsSorted<T>(y: T, t: seq<T>, key: T -> Instant)
    requires SortedDescending(t, key)
    requires forall k :: 0 <= k < |t| ==> AtOrBefore(key(t[k]), key(y))
    ensures SortedDescending([y] + t, key)
  {
    var r := [y] + t;
    forall i, j | 0 <= i < j < |r| ensures AtOrBefore(key(r[j]), key(r[i])) {
      assert r[j] == t[j - 1];
      if i > 0 {
        assert r[i] == t[i - 1];
      }
    }
  }

  /** Inserting keeps every element no later than a bound that all of them respect. */
  lemma {:induction false} InsertBelow<T>(x: T, s: seq<T>, key: T -> Instant, bound: Instant)
    requires AtOrBefore(key(x), bound)
    requires forall k :: 0 <= k < |s| ==> AtOrBefore(key(s[k]), bound)
    ensures forall k :: 0 <= k < |Insert(x, s, key)| ==> AtOrBefore(key(Insert(x, s, key)[k]), bound)
    decreases |s|
  {
    if |s| > 0 && !AtOrBefore(key(s[0]), key(x)) {
      InsertBelow(x, s[1..], key, bound);
      var t := Insert(x, s[1..], key);
      assert Insert(x, s, key) == [s[0]] + t;
      forall k | 0 < k < |Insert(x, s, key)| ensures AtOrBefore(key(Insert(x, s, key)[k]), bound) {
        assert Insert(x, s, key)[k] == t[k - 1];
      }
    } else {
      forall k | 0 < k < |Insert(x, s, key)| ensures AtOrBefore(key(Insert(x, s, key)[k]), bound) {
        assert Insert(x, s, key)[k] == s[k - 1];
      }
    }
  }

  /** The stable descending sort. */
  function SortDescending<T>(s: seq<T>, key: T -> Instant): (r: seq<T>)
    ensures multiset(r) == multiset(s)
    ensures SortedDescending(r, key)
  {
    if |s| == 0 then []
    else
      var sorted := SortDescending(s[1..], key);
      InsertSorted(s[0], sorted, key);
      assert s == [s[0]] + s[1..];
      Insert(s[0], sorted, key)
  }

  /** The first element, in sequence order, whose key is `d`. */
  function FirstWithKey<T>(s: seq<T>, key: T -> Instant, d: Instant): (r: Option<T>)
    ensures r.Some? ==> r.value in s && key(r.value) == d
    ensures r.None? ==> forall i :: 0 <= i < |s| ==> key(s[i]) != d
  {
    if |s| == 0 then None
    else if key(s[0]) == d then Some(s[0])
    else FirstWithKey(s[1..], key, d)
  }

  lemma {:induction false} FirstWithKeyAt<T>(s: seq<T>, key: T -> Instant, i: nat)
    requires i < |s|
    requires forall j :: 0 <= j < i ==> key(s[j]) != key(s[i])
    ensures FirstWithKey(s, key, key(s[i])) == Some(s[i])
    decreases i
  {
    if i > 0 {
      FirstWithKeyAt(s[1..], key, i - 1);
    }
  }

  lemma {:induction false} InsertFirstWithKey<T>(x: T, s: seq<T>, key: T -> Instant, d: Instant)
    ensures FirstWithKey(Insert(x, s, key), key, d)
            == if key(x) == d then Some(x) else FirstWithKey(s, key, d)
    decreases |s|
  {
    if |s| == 0 || AtOrBefore(key(s[0]), key(x)) {
      assert ([x] + s)[1..] == s;
    } else {
      var r := Insert(x, s, key);
      assert r[0] == s[0] && r[1..] == Insert(x, s[1..], key);
      InsertFirstWithKey(x, s[1..], key, d);
    }
  }

  /** Stability: sorting does not change which element comes first among those with key `d`. */
  lemma {:induction false} SortFirstWithKey<T>(s: seq<T>, key: T -> Instant, d: Instant)
    ensures FirstWithKey(SortDescending(s, key), key, d) == FirstWithKey(s, key, d)
    decreases |s|
  {
    if |s| > 0 {
      InsertFirstWithKey(s[0], SortDescending(s[1..], key), key, d);
      SortFirstWithKey(s[1..], key, d);
    }
  }
}
