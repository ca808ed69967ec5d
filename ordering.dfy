/**
 * Ordering by count: `sort((a, b) => b.count - a.count)`, used on a copy of
 * the frequency list for the bar chart (then `slice(0, N)`) and in place on
 * the cloud's word list. The comparator only looks at the count, and the
 * sort is stable (ECMAScript 2019 and later), so the order is determined:
 * counts decreasing, and entries with equal counts in their original order.
 * The model is generic over the element and the key it is sorted by.
 */
module Ordering {

  /** Keys never increase from left to right. */
  predicate SortedDesc<T>(s: seq<T>, key: T -> int) {
    forall i, j :: 0 <= i < j < |s| ==> key(s[i]) >= key(s[j])
  }

  /** The elements of s whose key is c, in order. */
  function WithKey<T>(s: seq<T>, key: T -> int, c: int): seq<T> {
    if s == [] then []
    else (if key(s[0]) == c then [s[0]] else []) + WithKey(s[1..], key, c)
  }

  /** Puts x in front of the first element whose key is not larger than its own. */
  function Insert<T>(x: T, t: seq<T>, key: T -> int): (r: seq<T>)
    ensures |r| == |t| + 1
  {
    if t == [] then [x]
    else if key(x) >= key(t[0]) then [x] + t
    else [t[0]] + Insert(x, t[1..], key)
  }

  /** The stable descending sort: each element inserted into the sorted rest. */
  function SortDesc<T>(s: seq<T>, key: T -> int): (r: seq<T>)
    ensures |r| == |s|
  {
    if s == [] then [] else Insert(s[0], SortDesc(s[1..], key), key)
  }

  // ----- Insert -----

  /** Insert places x right after the leading elements whose keys are larger. */
  lemma {:induction false} InsertAt<T>(x: T, t: seq<T>, key: T -> int, m: nat)
    requires m <= |t|
    requires forall k :: 0 <= k < m ==> key(t[k]) > key(x)
    requires m == |t| || key(x) >= key(t[m])
    ensures Insert(x, t, key) == t[..m] + [x] + t[m..]
  {
    if m > 0 {
      InsertAt(x, t[1..], key, m - 1);
      assert t[1..][..m - 1] == t[1..m];
      assert t[1..][m - 1..] == t[m..];
      assert [t[0]] + t[1..m] == t[..m];
    } else if t != [] {
      assert t[..0] + [x] + t[0..] == [x] + t;
    }
  }

  /** Inserting into a sorted list keeps it sorted. */
  lemma {:induction false} InsertSorted<T>(x: T, t: seq<T>, key: T -> int)
    requires SortedDesc(t, key)
    ensures SortedDesc(Insert(x, t, key), key)
    ensures key(Insert(x, t, key)[0]) == key(x) || (t != [] && key(Insert(x, t, key)[0]) == key(t[0]))
  {
    if t != [] && key(x) < key(t[0]) {
      InsertSorted(x, t[1..], key);
    }
  }

  /** Insert adds x and loses nothing. */
  lemma {:induction false} InsertPermutes<T>(x: T, t: seq<T>, key: T -> int)
    ensures multiset(Insert(x, t, key)) == multiset([x] + t)
  {
    if t != [] && key(x) < key(t[0]) {
      InsertPermutes(x, t[1..], key);
      assert [x] + t == [x] + ([t[0]] + t[1..]);
      assert t == [t[0]] + t[1..];
    }
  }

  /** Among equal keys, the inserted element comes first: Insert keeps each key's order. */
  lemma {:induction false} InsertStable<T>(x: T, t: seq<T>, key: T -> int, c: int)
    ensures WithKey(Insert(x, t, key), key, c) == WithKey([x] + t, key, c)
  {
    if t != [] && key(x) < key(t[0]) {
      InsertStable(x, t[1..], key, c);
      InsertStableStep(x, t, key, c);
    }
  }

  /** The step of InsertStable: x passes t[0], whose key is larger, so not c as well. */
  lemma InsertStableStep<T>(x: T, t: seq<T>, key: T -> int, c: int)
    requires t != [] && key(x) < key(t[0])
    requires WithKey(Insert(x, t[1..], key), key, c) == WithKey([x] + t[1..], key, c)
    ensures WithKey(Insert(x, t, key), key, c) == WithKey([x] + t, key, c)
  {
    var u := Insert(x, t[1..], key);
    var rest := WithKey(t[1..], key, c);
    assert Insert(x, t, key) == [t[0]] + u;
    assert [t[0]] + t[1..] == t;
    WithKeyCons(t[0], u, key, c);
    WithKeyCons(x, t[1..], key, c);
    WithKeyCons(x, t, key, c);
    WithKeyCons(t[0], t[1..], key, c);
    if key(t[0]) == c {
      assert WithKey(Insert(x, t, key), key, c) == [t[0]] + rest;
    } else if key(x) == c {
      assert WithKey(Insert(x, t, key), key, c) == [x] + rest;
    } else {
      assert WithKey(Insert(x, t, key), key, c) == rest;
    }
  }

  /** The part with key c of a list built from a head and a tail. */
  lemma WithKeyCons<T>(y: T, u: seq<T>, key: T -> int, c: int)
    ensures WithKey([y] + u, key, c) == (if key(y) == c then [y] else []) + WithKey(u, key, c)
  {
    assert ([y] + u)[1..] == u;
  }

  // ----- SortDesc -----

  /** SortDesc is a sorted permutation of its input. */
  lemma {:induction false} SortDescSortedPermutation<T>(s: seq<T>, key: T -> int)
    ensures SortedDesc(SortDesc(s, key), key)
    ensures multiset(SortDesc(s, key)) == multiset(s)
  {
    if s != [] {
      SortDescSortedPermutation(s[1..], key);
      InsertSorted(s[0], SortDesc(s[1..], key), key);
      InsertPermutes(s[0], SortDesc(s[1..], key), key);
      assert s == [s[0]] + s[1..];
    }
  }

  /** SortDesc is stable: elements with the same key keep their input order. */
  lemma {:induction false} SortDescStable<T>(s: seq<T>, key: T -> int, c: int)
    ensures WithKey(SortDesc(s, key), key, c) == WithKey(s, key, c)
  {
    if s != [] {
      var t := SortDesc(s[1..], key);
      SortDescStable(s[1..], key, c);
      InsertStable(s[0], t, key, c);
      assert ([s[0]] + t)[1..] == t;
    }
  }

  // ----- uniqueness: a stable descending sort can only give SortDesc -----

  /** The part of s with key c holds exactly the elements of s whose key is c. */
  lemma {:induction false} WithKeyMembers<T>(s: seq<T>, key: T -> int, c: int, y: T)
    ensures y in WithKey(s, key, c) <==> y in s && key(y) == c
  {
    if s != [] {
      WithKeyMembers(s[1..], key, c, y);
      assert s == [s[0]] + s[1..];
    }
  }

  /** In a sorted list, the part with the first key starts with the first element. */
  lemma WithKeyOfHead<T>(s: seq<T>, key: T -> int)
    requires s != []
    ensures WithKey(s, key, key(s[0])) == [s[0]] + WithKey(s[1..], key, key(s[0]))
  {
  }

  /** In a sorted list every element's key is at most the first one's. */
  lemma KeyAtMostHead<T>(s: seq<T>, key: T -> int, x: T)
    requires SortedDesc(s, key) && x in s
    ensures key(x) <= key(s[0])
  {
    var k :| 0 <= k < |s| && s[k] == x;
    if k > 0 {
      assert key(s[0]) >= key(s[k]);
    }
  }

  /** The heads of two sorted lists that agree on every key's part are equal. */
  lemma SameHead<T>(r: seq<T>, q: seq<T>, key: T -> int)
    requires SortedDesc(r, key) && SortedDesc(q, key) && r != [] && q != []
    requires forall c :: WithKey(r, key, c) == WithKey(q, key, c)
    ensures r[0] == q[0]
  {
    assert r[0] in r;
    WithKeyMembers(r, key, key(r[0]), r[0]);
    WithKeyMembers(q, key, key(r[0]), r[0]);
    KeyAtMostHead(q, key, r[0]);
    assert q[0] in q;
    WithKeyMembers(q, key, key(q[0]), q[0]);
    WithKeyMembers(r, key, key(q[0]), q[0]);
    KeyAtMostHead(r, key, q[0]);
    WithKeyOfHead(r, key);
    WithKeyOfHead(q, key);
    assert WithKey(r, key, key(r[0]))[0] == WithKey(q, key, key(q[0]))[0];
  }

  /** Two lists with the same head agree after it on every key's part if they do before. */
  lemma TailsAgree<T>(r: seq<T>, q: seq<T>, key: T -> int, c: int)
    requires r != [] && q != [] && r[0] == q[0]
    requires WithKey(r, key, c) == WithKey(q, key, c)
    ensures WithKey(r[1..], key, c) == WithKey(q[1..], key, c)
  {
    var h := if key(r[0]) == c then [r[0]] else [];
    assert WithKey(r, key, c) == h + WithKey(r[1..], key, c);
    assert WithKey(q, key, c) == h + WithKey(q[1..], key, c);
    assert (h + WithKey(r[1..], key, c))[|h|..] == WithKey(r[1..], key, c);
    assert (h + WithKey(q[1..], key, c))[|h|..] == WithKey(q[1..], key, c);
  }

  /** Two sorted lists that agree on the order of every key's elements are equal. */
  lemma {:induction false} SortedWithSameKeysEqual<T>(r: seq<T>, q: seq<T>, key: T -> int)
    requires SortedDesc(r, key) && SortedDesc(q, key)
    requires forall c :: WithKey(r, key, c) == WithKey(q, key, c)
    ensures r == q
    decreases |r|
  {
    if r != [] {
      WithKeyOfHead(r, key);
      assert WithKey(q, key, key(r[0])) != [];
    }
    if q != [] {
      WithKeyOfHead(q, key);
      assert WithKey(r, key, key(q[0])) != [];
    }
    if r != [] && q != [] {
      SameHead(r, q, key);
      forall c ensures WithKey(r[1..], key, c) == WithKey(q[1..], key, c) {
        TailsAgree(r, q, key, c);
      }
      SortedWithSameKeysEqual(r[1..], q[1..], key);
      assert r == [r[0]] + r[1..] && q == [q[0]] + q[1..];
    }
  }

  /**
   * Any result of a stable descending sort of s is SortDesc(s): being sorted
   * and keeping every key's elements in input order leaves one possibility.
   */
  lemma StableSortIsUnique<T>(s: seq<T>, r: seq<T>, key: T -> int)
    requires SortedDesc(r, key)
    requires forall c :: WithKey(r, key, c) == WithKey(s, key, c)
    ensures r == SortDesc(s, key)
  {
    SortDescSortedPermutation(s, key);
    forall c ensures WithKey(r, key, c) == WithKey(SortDesc(s, key), key, c) {
      SortDescStable(s, key, c);
    }
    SortedWithSameKeysEqual(r, SortDesc(s, key), key);
  }

  // ----- the bar chart's top N -----

  /** The end index `slice(0, n)` uses on a list of length len. */
  function SliceEnd(len: nat, n: int): (e: nat)
    ensures e <= len
  {
    if n >= 0 then (if n < len then n else len)
    else if len + n > 0 then len + n else 0
  }

  /** `[...s].sort(byCountDesc).slice(0, n)`. */
  function TopN<T>(s: seq<T>, key: T -> int, n: int): seq<T> {
    SortDesc(s, key)[..SliceEnd(|s|, n)]
  }

  /**
   * The top n: min(n, |s|) elements (for a negative n, all but the last -n),
   * sorted, drawn from s, and none of the elements left out has a larger key
   * than any element kept.
   */
  lemma TopNIsLargest<T>(s: seq<T>, key: T -> int, n: int)
    ensures var r := TopN(s, key, n);
      && |r| == (if n >= 0 then (if n < |s| then n else |s|)
                 else (if |s| + n > 0 then |s| + n else 0))
      && SortedDesc(r, key)
      && multiset(r) <= multiset(s)
      && r == SortDesc(s, key)[..|r|]
      && forall y :: y in multiset(s) - multiset(r) ==> forall i :: 0 <= i < |r| ==> key(y) <= key(r[i])
  {
    var sorted := SortDesc(s, key);
    SortDescSortedPermutation(s, key);
    var r := TopN(s, key, n);
    PrefixAndRest(sorted, |r|);
    DroppedAreSmaller(sorted, key, |r|);
  }

  /** A prefix and the rest of a list split its multiset. */
  lemma PrefixAndRest<T>(s: seq<T>, m: nat)
    requires m <= |s|
    ensures multiset(s[..m]) <= multiset(s)
    ensures multiset(s) - multiset(s[..m]) == multiset(s[m..])
  {
    assert s == s[..m] + s[m..];
  }

  /** In a sorted list, nothing after position m has a larger key than what is before it. */
  lemma DroppedAreSmaller<T>(s: seq<T>, key: T -> int, m: nat)
    requires SortedDesc(s, key) && m <= |s|
    ensures forall y :: y in multiset(s[m..]) ==> forall i :: 0 <= i < m ==> key(y) <= key(s[i])
  {
    forall y | y in multiset(s[m..]) ensures forall i :: 0 <= i < m ==> key(y) <= key(s[i]) {
      var j :| 0 <= j < |s[m..]| && s[m..][j] == y;
      assert s[m + j] == y;
    }
  }

  // ----- the cloud's in-place sort -----

  /**
   * One insertion step: moves a[i] rightwards past the elements after it
   * whose keys are larger, shifting them left by one.
   */
  method InsertLeftmost<T>(a: array<T>, i: nat, key: T -> int)
    requires i < a.Length
    modifies a
    ensures a[..i] == old(a[..i])
    ensures a[i..] == Insert(old(a[i]), old(a[i + 1..]), key)
  {
    var n := a.Length;
    var x := a[i];
    ghost var t := a[i + 1..];
    var j := i;
    while j + 1 < n && key(a[j + 1]) > key(x)
      invariant i <= j < n
      invariant forall k :: 0 <= k < i ==> a[k] == old(a[k])
      invariant forall k :: i <= k < j ==> a[k] == t[k - i]
      invariant forall k :: j < k < n ==> a[k] == t[k - i - 1]
      invariant forall k :: 0 <= k < j - i ==> key(t[k]) > key(x)
    {
      a[j] := a[j + 1];
      j := j + 1;
    }
    a[j] := x;
    InsertAt(x, t, key, j - i);
    Reassembled(a[..], i, j, t, x);
  }

  /** Pointwise, b[i..] is t with x put at position j - i. */
  lemma Reassembled<T>(b: seq<T>, i: nat, j: nat, t: seq<T>, x: T)
    requires i <= j < |b| && |b| == i + |t| + 1
    requires forall k :: i <= k < j ==> b[k] == t[k - i]
    requires b[j] == x
    requires forall k :: j < k < |b| ==> b[k] == t[k - i - 1]
    ensures b[i..] == t[..j - i] + [x] + t[j - i..]
  {
    var r := t[..j - i] + [x] + t[j - i..];
    forall k | 0 <= k < |r| ensures b[i..][k] == r[k] {
      if k < j - i {
        assert r[k] == t[k];
      } else if k > j - i {
        assert r[k] == t[k - 1];
      }
    }
  }

  /**
   * `wordData.sort(byCountDesc)`: sorts the array in place, into the unique
   * stable descending order. Insertion from the right: the suffix a[i..] is
   * kept equal to the sorted suffix of the original array.
   */
  method SortDescInPlace<T>(a: array<T>, key: T -> int)
    modifies a
    ensures a[..] == SortDesc(old(a[..]), key)
  {
    ghost var orig := a[..];
    var i := a.Length;
    while i > 0
      invariant 0 <= i <= a.Length
      invariant a[..i] == orig[..i]
      invariant a[i..] == SortDesc(orig[i..], key)
    {
      i := i - 1;
      assert a[i] == orig[i] by {
        assert a[..i + 1][i] == orig[..i + 1][i];
      }
      assert a[i + 1..] == SortDesc(orig[i + 1..], key);
      assert orig[i..][1..] == orig[i + 1..];
      assert a[..i] == orig[..i] by {
        assert a[..i] == a[..i + 1][..i];
        assert orig[..i] == orig[..i + 1][..i];
      }
      InsertLeftmost(a, i, key);
    }
    assert orig[0..] == orig;
  }
}
