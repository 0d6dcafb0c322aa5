/**
 * Python's `sorted(xs, key=...)`: a stable sort on a key compared lexicographically.
 * A key tuple whose leading components are integers and whose last component is a
 * string is written as one integer sequence: the integers, then the string's code
 * points. Because the integer prefix has a fixed length, comparing these sequences
 * lexicographically is the same as comparing the tuples.
 */
module Sorting {
  import opened Text

  /** Lexicographic `<=` on integer sequences; a proper prefix comes first. */
  predicate LexLe(a: seq<int>, b: seq<int>)
    decreases |a|
  {
    a == [] || (b != [] && (a[0] < b[0] || (a[0] == b[0] && LexLe(a[1..], b[1..]))))
  }

  lemma {:induction false} LexLeReflexive(a: seq<int>)
    ensures LexLe(a, a)
  {
    if a != [] {
      LexLeReflexive(a[1..]);
    }
  }

  lemma {:induction false} LexLeTotal(a: seq<int>, b: seq<int>)
    ensures LexLe(a, b) || LexLe(b, a)
  {
    if a != [] && b != [] && a[0] == b[0] {
      LexLeTotal(a[1..], b[1..]);
    }
  }

  lemma {:induction false} LexLeAntisymmetric(a: seq<int>, b: seq<int>)
    requires LexLe(a, b) && LexLe(b, a)
    ensures a == b
  {
    if a != [] {
      LexLeAntisymmetric(a[1..], b[1..]);
      assert a == [a[0]] + a[1..] && b == [b[0]] + b[1..];
    }
  }

  lemma {:induction false} LexLeTransitive(a: seq<int>, b: seq<int>, c: seq<int>)
    requires LexLe(a, b) && LexLe(b, c)
    ensures LexLe(a, c)
  {
    if a != [] && b != [] && c != [] && a[0] == b[0] == c[0] {
      LexLeTransitive(a[1..], b[1..], c[1..]);
    }
  }

  /** Comparing keys that start with one integer: first by it, then by the rest. */
  lemma LexLeCons(h: int, a: seq<int>, g: int, b: seq<int>)
    ensures LexLe([h] + a, [g] + b) <==> h < g || (h == g && LexLe(a, b))
  {
    assert ([h] + a)[1..] == a && ([g] + b)[1..] == b;
  }

  /** Python's `<=` on strings: code point by code point, a proper prefix first. */
  predicate StrLe(a: string, b: string) {
    LexLe(Codes(a), Codes(b))
  }

  /** Every pair, not only neighbours, is in key order. */
  predicate SortedBy<T>(s: seq<T>, key: T -> seq<int>) {
    forall i, j :: 0 <= i < j < |s| ==> LexLe(key(s[i]), key(s[j]))
  }

  /** The elements of `s` whose key is `k`, in their order in `s`. */
  function WithKey<T>(s: seq<T>, key: T -> seq<int>, k: seq<int>): (r: seq<T>)
  {
    if s == [] then [] else (if key(s[0]) == k then [s[0]] else []) + WithKey(s[1..], key, k)
  }

  lemma {:induction false} WithKeyConcat<T>(a: seq<T>, b: seq<T>, key: T -> seq<int>, k: seq<int>)
    ensures WithKey(a + b, key, k) == WithKey(a, key, k) + WithKey(b, key, k)
  {
    if a != [] {
      assert (a + b)[0] == a[0] && (a + b)[1..] == a[1..] + b;
      var head := if key(a[0]) == k then [a[0]] else [];
      assert WithKey(a + b, key, k) == head + WithKey(a[1..] + b, key, k);
      WithKeyConcat(a[1..], b, key, k);
    } else {
      assert a + b == b;
    }
  }

  /** Places `x` in front of the first element of `s` whose key is not smaller than its own. */
  function Insert<T>(x: T, s: seq<T>, key: T -> seq<int>): seq<T>
  {
    if s == [] then [x]
    else if LexLe(key(x), key(s[0])) then [x] + s
    else [s[0]] + Insert(x, s[1..], key)
  }

  lemma {:induction false} InsertMultiset<T>(x: T, s: seq<T>, key: T -> seq<int>)
    ensures multiset(Insert(x, s, key)) == multiset(s) + multiset{x}
  {
    if s != [] && !LexLe(key(x), key(s[0])) {
      InsertMultiset(x, s[1..], key);
      assert s == [s[0]] + s[1..];
    }
  }

  lemma {:induction false} InsertSorted<T>(x: T, s: seq<T>, key: T -> seq<int>)
    requires SortedBy(s, key)
    ensures SortedBy(Insert(x, s, key), key)
  {
    var r := Insert(x, s, key);
    if s == [] {
    } else if LexLe(key(x), key(s[0])) {
      assert r[1..] == s;
      forall j | 1 < j < |r| ensures LexLe(key(r[0]), key(r[j])) {
        LexLeTransitive(key(x), key(s[0]), key(s[j - 1]));
      }
    } else {
      LexLeTotal(key(x), key(s[0]));
      var t := Insert(x, s[1..], key);
      InsertSorted(x, s[1..], key);
      InsertMultiset(x, s[1..], key);
      assert r == [s[0]] + t && r[1..] == t;
      forall j | 0 < j < |r| ensures LexLe(key(r[0]), key(r[j])) {
        assert r[j] in multiset(t);
        if r[j] != x {
          assert r[j] in s[1..];
          var m :| 0 <= m < |s[1..]| && s[1..][m] == r[j];
          assert s[m + 1] == r[j];
        }
      }
    }
  }

  /** `x` goes in front of every element of `s` that has its key: insertion is stable. */
  lemma {:induction false} InsertWithKey<T>(x: T, s: seq<T>, key: T -> seq<int>, k: seq<int>)
    ensures WithKey(Insert(x, s, key), key, k) == if key(x) == k then [x] + WithKey(s, key, k) else WithKey(s, key, k)
  {
    if s == [] {
    } else if LexLe(key(x), key(s[0])) {
      WithKeyCons(x, s, key, k);
    } else {
      LexLeReflexive(key(x));
      InsertWithKey(x, s[1..], key, k);
      WithKeyCons(s[0], Insert(x, s[1..], key), key, k);
      WithKeyCons(s[0], s[1..], key, k);
      assert [s[0]] + s[1..] == s;
    }
  }

  lemma WithKeyCons<T>(x: T, s: seq<T>, key: T -> seq<int>, k: seq<int>)
    ensures WithKey([x] + s, key, k) == (if key(x) == k then [x] else []) + WithKey(s, key, k)
  {
    assert ([x] + s)[0] == x && ([x] + s)[1..] == s;
  }

  /** Python's stable `sorted(s, key=key)`, as an insertion sort. */
  function SortBy<T>(s: seq<T>, key: T -> seq<int>): seq<T>
  {
    if s == [] then [] else Insert(s[0], SortBy(s[1..], key), key)
  }

  lemma {:induction false} SortByMultiset<T>(s: seq<T>, key: T -> seq<int>)
    ensures multiset(SortBy(s, key)) == multiset(s)
  {
    if s != [] {
      SortByMultiset(s[1..], key);
      InsertMultiset(s[0], SortBy(s[1..], key), key);
      assert s == [s[0]] + s[1..];
    }
  }

  lemma {:induction false} SortBySorted<T>(s: seq<T>, key: T -> seq<int>)
    ensures SortedBy(SortBy(s, key), key)
  {
    if s != [] {
      SortBySorted(s[1..], key);
      InsertSorted(s[0], SortBy(s[1..], key), key);
    }
  }

  lemma {:induction false} SortByStable<T>(s: seq<T>, key: T -> seq<int>, k: seq<int>)
    ensures WithKey(SortBy(s, key), key, k) == WithKey(s, key, k)
  {
    if s != [] {
      SortByStable(s[1..], key, k);
      InsertWithKey(s[0], SortBy(s[1..], key), key, k);
    }
  }

  /** `SortBy` returns a permutation of its input, in key order, with equal keys in input order. */
  lemma SortByCorrect<T>(s: seq<T>, key: T -> seq<int>)
    ensures multiset(SortBy(s, key)) == multiset(s)
    ensures |SortBy(s, key)| == |s|
    ensures SortedBy(SortBy(s, key), key)
    ensures forall k :: WithKey(SortBy(s, key), key, k) == WithKey(s, key, k)
  {
    SortByMultiset(s, key);
    SortBySorted(s, key);
    forall k ensures WithKey(SortBy(s, key), key, k) == WithKey(s, key, k) {
      SortByStable(s, key, k);
    }
    assert |SortBy(s, key)| == |multiset(SortBy(s, key))|;
  }

  /**
   * The properties `SortByCorrect` states fix the result: two sorted sequences that
   * hold the elements of each key in the same order are equal.
   */
  lemma {:induction false} SortedUnique<T>(a: seq<T>, b: seq<T>, key: T -> seq<int>)
    requires multiset(a) == multiset(b)
    requires SortedBy(a, key) && SortedBy(b, key)
    requires forall k :: WithKey(a, key, k) == WithKey(b, key, k)
    ensures a == b
    decreases |a|
  {
    assert |a| == |multiset(a)| == |multiset(b)| == |b|;
    if a != [] {
      SortedHeadsEqual(a, b, key);
      TailsAgree(a, b, key);
      SortedUnique(a[1..], b[1..], key);
      assert a == [a[0]] + a[1..] && b == [b[0]] + b[1..];
    }
  }

  /** Dropping a common first element keeps the premises of `SortedUnique`. */
  lemma TailsAgree<T>(a: seq<T>, b: seq<T>, key: T -> seq<int>)
    requires a != [] && b != [] && a[0] == b[0] && multiset(a) == multiset(b)
    requires SortedBy(a, key) && SortedBy(b, key)
    requires forall k :: WithKey(a, key, k) == WithKey(b, key, k)
    ensures multiset(a[1..]) == multiset(b[1..])
    ensures SortedBy(a[1..], key) && SortedBy(b[1..], key)
    ensures forall k :: WithKey(a[1..], key, k) == WithKey(b[1..], key, k)
  {
    forall k ensures WithKey(a[1..], key, k) == WithKey(b[1..], key, k) {
      WithKeyDropHead(a, b, key, k);
    }
    TailMultiset(a);
    TailMultiset(b);
    SortedTail(a, key);
    SortedTail(b, key);
  }

  lemma TailMultiset<T>(s: seq<T>)
    requires s != []
    ensures multiset(s[1..]) == multiset(s) - multiset{s[0]}
  {
    assert s == [s[0]] + s[1..];
  }

  lemma SortedTail<T>(s: seq<T>, key: T -> seq<int>)
    requires s != [] && SortedBy(s, key)
    ensures SortedBy(s[1..], key)
  {
    forall i, j | 0 <= i < j < |s[1..]| ensures LexLe(key(s[1..][i]), key(s[1..][j])) {
      assert s[1..][i] == s[i + 1] && s[1..][j] == s[j + 1];
    }
  }

  /** Two sorted sequences that agree on every key class start with the same element. */
  lemma SortedHeadsEqual<T>(a: seq<T>, b: seq<T>, key: T -> seq<int>)
    requires a != [] && multiset(a) == multiset(b)
    requires SortedBy(a, key) && SortedBy(b, key)
    requires forall k :: WithKey(a, key, k) == WithKey(b, key, k)
    ensures b != [] && a[0] == b[0]
  {
    assert a[0] in multiset(b);
    assert b[0] in multiset(a);
    var i :| 0 <= i < |a| && a[i] == b[0];
    var j :| 0 <= j < |b| && b[j] == a[0];
    if i == 0 { LexLeReflexive(key(a[0])); }
    if j == 0 { LexLeReflexive(key(b[0])); }
    LexLeAntisymmetric(key(a[0]), key(b[0]));
    var k := key(a[0]);
    assert WithKey(a, key, k)[0] == a[0];
    assert WithKey(b, key, k)[0] == b[0];
  }

  lemma WithKeyDropHead<T>(a: seq<T>, b: seq<T>, key: T -> seq<int>, k: seq<int>)
    requires a != [] && b != [] && a[0] == b[0]
    requires WithKey(a, key, k) == WithKey(b, key, k)
    ensures WithKey(a[1..], key, k) == WithKey(b[1..], key, k)
  {
    var head := if key(a[0]) == k then [a[0]] else [];
    assert WithKey(a[1..], key, k) == WithKey(a, key, k)[|head|..];
    assert WithKey(b[1..], key, k) == WithKey(b, key, k)[|head|..];
  }

  /**
   * Sorted sequences whose keys are pairwise distinct are fixed by their elements:
   * two such sequences holding the same elements are equal.
   */
  lemma {:induction false} SortedDistinctUnique<T>(a: seq<T>, b: seq<T>, key: T -> seq<int>)
    requires SortedBy(a, key) && SortedBy(b, key)
    requires forall i, j :: 0 <= i < j < |a| ==> key(a[i]) != key(a[j])
    requires forall i, j :: 0 <= i < j < |b| ==> key(b[i]) != key(b[j])
    requires forall x :: x in a <==> x in b
    ensures a == b
    decreases |a|
  {
    if a != [] {
      DistinctHeadsEqual(a, b, key);
      SortedTail(a, key);
      SortedTail(b, key);
      DistinctTail(a, key);
      DistinctTail(b, key);
      forall x ensures x in a[1..] <==> x in b[1..] {
        TailMembers(a, b, key, x);
      }
      SortedDistinctUnique(a[1..], b[1..], key);
      assert a == [a[0]] + a[1..] && b == [b[0]] + b[1..];
    } else {
      HeadIsMember(b);
    }
  }

  lemma HeadIsMember<T>(s: seq<T>)
    ensures s != [] ==> s[0] in s
  {
  }

  /** The first elements agree: each is the one with the least key. */
  lemma DistinctHeadsEqual<T>(a: seq<T>, b: seq<T>, key: T -> seq<int>)
    requires a != [] && SortedBy(a, key) && SortedBy(b, key)
    requires forall i, j :: 0 <= i < j < |a| ==> key(a[i]) != key(a[j])
    requires forall x :: x in a <==> x in b
    ensures b != [] && a[0] == b[0]
  {
    assert a[0] in b;
    assert b[0] in a;
    var i :| 0 <= i < |a| && a[i] == b[0];
    var j :| 0 <= j < |b| && b[j] == a[0];
    if i == 0 { LexLeReflexive(key(a[0])); }
    if j == 0 { LexLeReflexive(key(b[0])); }
    LexLeAntisymmetric(key(a[0]), key(b[0]));
  }

  lemma DistinctTail<T>(s: seq<T>, key: T -> seq<int>)
    requires s != [] && forall i, j :: 0 <= i < j < |s| ==> key(s[i]) != key(s[j])
    ensures forall i, j :: 0 <= i < j < |s[1..]| ==> key(s[1..][i]) != key(s[1..][j])
  {
    forall i, j | 0 <= i < j < |s[1..]| ensures key(s[1..][i]) != key(s[1..][j]) {
      assert s[1..][i] == s[i + 1] && s[1..][j] == s[j + 1];
    }
  }

  lemma TailMembers<T>(a: seq<T>, b: seq<T>, key: T -> seq<int>, x: T)
    requires a != [] && b != [] && a[0] == b[0]
    requires forall i, j :: 0 <= i < j < |a| ==> key(a[i]) != key(a[j])
    requires forall i, j :: 0 <= i < j < |b| ==> key(b[i]) != key(b[j])
    requires forall y :: y in a <==> y in b
    ensures x in a[1..] <==> x in b[1..]
  {
    if x in a[1..] {
      var m :| 0 <= m < |a[1..]| && a[1..][m] == x;
      assert a[m + 1] == x && x != a[0];
      assert x in b;
      assert b == [b[0]] + b[1..];
    }
    if x in b[1..] {
      var m :| 0 <= m < |b[1..]| && b[1..][m] == x;
      assert b[m + 1] == x && x != b[0];
      assert x in a;
      assert a == [a[0]] + a[1..];
    }
  }
}
