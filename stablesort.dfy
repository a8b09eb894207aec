/** `Array.prototype.sort` with a comparator, which ECMAScript requires to be
    stable. Every comparator in the core compares a fixed tuple of integer
    attributes in turn (`(a.y - b.y) || (a.x - b.x)` and the like), so a sort
    is given by a key function into `seq<int>` ordered lexicographically. */
module StableSort {

  /** Lexicographic order on integer tuples: the comparator's result is
      not positive. */
  predicate LexLe(a: seq<int>, b: seq<int>)
    decreases |a|
  {
    if a == [] then true
    else if b == [] then false
    else a[0] < b[0] || (a[0] == b[0] && LexLe(a[1..], b[1..]))
  }

  lemma {:induction false} LexReflexive(a: seq<int>)
    ensures LexLe(a, a)
    decreases |a|
  {
    if a != [] { LexReflexive(a[1..]); }
  }

  lemma {:induction false} LexTotal(a: seq<int>, b: seq<int>)
    ensures LexLe(a, b) || LexLe(b, a)
    decreases |a|
  {
    if a != [] && b != [] && a[0] == b[0] { LexTotal(a[1..], b[1..]); }
  }

  lemma {:induction false} LexTransitive(a: seq<int>, b: seq<int>, c: seq<int>)
    requires LexLe(a, b) && LexLe(b, c)
    ensures LexLe(a, c)
    decreases |a|
  {
    if a != [] && b != [] && c != [] && a[0] == b[0] == c[0] {
      LexTransitive(a[1..], b[1..], c[1..]);
    }
  }

  lemma {:induction false} LexAntisymmetric(a: seq<int>, b: seq<int>)
    requires LexLe(a, b) && LexLe(b, a)
    ensures a == b
    decreases |a|
  {
    if a != [] {
      LexAntisymmetric(a[1..], b[1..]);
      assert a == [a[0]] + a[1..] && b == [b[0]] + b[1..];
    }
  }

  /** The sequence is in non-decreasing key order. */
  ghost predicate SortedBy<T>(s: seq<T>, key: T -> seq<int>) {
    forall i, j :: 0 <= i < j < |s| ==> LexLe(key(s[i]), key(s[j]))
  }

  /** The elements of `s` whose key is `k`, in their order in `s`. */
  function WithKey<T>(s: seq<T>, key: T -> seq<int>, k: seq<int>): seq<T> {
    if s == [] then []
    else (if key(s[0]) == k then [s[0]] else []) + WithKey(s[1..], key, k)
  }

  /** Inserting `x` before the first element whose key is not smaller. */
  function Insert<T>(x: T, s: seq<T>, key: T -> seq<int>): seq<T> {
    if s == [] then [x]
    else if LexLe(key(x), key(s[0])) then [x] + s
    else [s[0]] + Insert(x, s[1..], key)
  }

  /** The stable sort of `s` by `key`. */
  function SortBy<T>(s: seq<T>, key: T -> seq<int>): seq<T> {
    if s == [] then [] else Insert(s[0], SortBy(s[1..], key), key)
  }

  lemma {:induction false} InsertPermutes<T>(x: T, s: seq<T>, key: T -> seq<int>)
    ensures multiset(Insert(x, s, key)) == multiset(s) + multiset{x}
  {
    if s != [] && !LexLe(key(x), key(s[0])) {
      InsertPermutes(x, s[1..], key);
      assert s == [s[0]] + s[1..];
    }
  }

  /** Sorting rearranges the elements and nothing else. */
  lemma {:induction false} SortByPermutes<T>(s: seq<T>, key: T -> seq<int>)
    ensures multiset(SortBy(s, key)) == multiset(s)
    ensures |SortBy(s, key)| == |s|
  {
    if s != [] {
      SortByPermutes(s[1..], key);
      InsertPermutes(s[0], SortBy(s[1..], key), key);
      assert s == [s[0]] + s[1..];
    }
    assert |multiset(SortBy(s, key))| == |SortBy(s, key)|;
  }

  lemma {:induction false} InsertSorted<T>(x: T, s: seq<T>, key: T -> seq<int>)
    requires SortedBy(s, key)
    ensures SortedBy(Insert(x, s, key), key)
  {
    var r := Insert(x, s, key);
    if s == [] {
    } else if LexLe(key(x), key(s[0])) {
      forall i, j | 0 <= i < j < |r| ensures LexLe(key(r[i]), key(r[j])) {
        if i == 0 && j > 1 { LexTransitive(key(x), key(s[0]), key(s[j - 1])); }
      }
    } else {
      var t := Insert(x, s[1..], key);
      InsertSorted(x, s[1..], key);
      InsertPermutes(x, s[1..], key);
      LexTotal(key(x), key(s[0]));
      forall j | 0 <= j < |t| ensures LexLe(key(s[0]), key(t[j])) {
        assert t[j] in multiset(s[1..]) + multiset{x};
        if t[j] != x {
          var m :| 0 <= m < |s[1..]| && s[1..][m] == t[j];
          assert s[m + 1] == t[j];
        }
      }
    }
  }

  /** The result of sorting is in key order. */
  lemma {:induction false} SortBySorted<T>(s: seq<T>, key: T -> seq<int>)
    ensures SortedBy(SortBy(s, key), key)
  {
    if s != [] {
      SortBySorted(s[1..], key);
      InsertSorted(s[0], SortBy(s[1..], key), key);
    }
  }

  lemma WithKeyCons<T>(a: T, t: seq<T>, key: T -> seq<int>, k: seq<int>)
    ensures WithKey([a] + t, key, k) == (if key(a) == k then [a] else []) + WithKey(t, key, k)
  {
    assert ([a] + t)[1..] == t;
  }

  lemma {:induction false} InsertKeepsTies<T>(x: T, s: seq<T>, key: T -> seq<int>, k: seq<int>)
    ensures WithKey(Insert(x, s, key), key, k) == (if key(x) == k then [x] else []) + WithKey(s, key, k)
  {
    if s == [] {
    } else if LexLe(key(x), key(s[0])) {
      WithKeyCons(x, s, key, k);
    } else {
      var t := Insert(x, s[1..], key);
      InsertKeepsTies(x, s[1..], key, k);
      LexReflexive(key(x));
      assert key(s[0]) != key(x);
      WithKeyCons(s[0], t, key, k);
      WithKeyCons(s[0], s[1..], key, k);
      assert [s[0]] + s[1..] == s;
    }
  }

  /** Stability: elements with equal keys keep their relative order. */
  lemma {:induction false} SortByStable<T>(s: seq<T>, key: T -> seq<int>, k: seq<int>)
    ensures WithKey(SortBy(s, key), key, k) == WithKey(s, key, k)
  {
    if s != [] {
      SortByStable(s[1..], key, k);
      InsertKeepsTies(s[0], SortBy(s[1..], key), key, k);
    }
  }

  lemma {:induction false} InClass<T>(s: seq<T>, key: T -> seq<int>, j: nat)
    requires j < |s|
    ensures |WithKey(s, key, key(s[j]))| >= 1
  {
    if j > 0 { InClass(s[1..], key, j - 1); }
  }

  lemma {:induction false} TwoInClass<T>(s: seq<T>, key: T -> seq<int>, i: nat, j: nat)
    requires i < j < |s| && key(s[i]) == key(s[j])
    ensures |WithKey(s, key, key(s[i]))| >= 2
  {
    if i == 0 {
      InClass(s[1..], key, j - 1);
    } else {
      TwoInClass(s[1..], key, i - 1, j - 1);
    }
  }

  lemma {:induction false} DistinctClass<T>(s: seq<T>, key: T -> seq<int>, k: seq<int>)
    requires forall i, j :: 0 <= i < j < |s| ==> key(s[i]) != key(s[j])
    ensures |WithKey(s, key, k)| <= 1
  {
    if s != [] {
      DistinctClass(s[1..], key, k);
      if key(s[0]) == k && |WithKey(s[1..], key, k)| == 1 {
        ClassMember(s[1..], key, k);
      }
    }
  }

  lemma {:induction false} ClassMember<T>(s: seq<T>, key: T -> seq<int>, k: seq<int>)
    requires WithKey(s, key, k) != []
    ensures exists j :: 0 <= j < |s| && key(s[j]) == k
  {
    if key(s[0]) != k {
      ClassMember(s[1..], key, k);
      var j :| 0 <= j < |s[1..]| && key(s[1..][j]) == k;
      assert key(s[j + 1]) == k;
    }
  }

  /** When no two elements share a key, neither do any two of the sorted
      result, so it is in strictly increasing key order. */
  lemma SortByDistinct<T>(s: seq<T>, key: T -> seq<int>)
    requires forall i, j :: 0 <= i < j < |s| ==> key(s[i]) != key(s[j])
    ensures forall i, j :: 0 <= i < j < |SortBy(s, key)| ==> key(SortBy(s, key)[i]) != key(SortBy(s, key)[j])
  {
    var r := SortBy(s, key);
    forall i, j | 0 <= i < j < |r| ensures key(r[i]) != key(r[j]) {
      if key(r[i]) == key(r[j]) {
        TwoInClass(r, key, i, j);
        SortByStable(s, key, key(r[i]));
        DistinctClass(s, key, key(r[i]));
      }
    }
  }

  lemma SortBySingle<T>(x: T, key: T -> seq<int>)
    ensures SortBy([x], key) == [x]
  {
    assert [x][1..] == [];
  }

  /** Sorting what is already sorted changes nothing. */
  lemma {:induction false} SortBySortedIdentity<T>(s: seq<T>, key: T -> seq<int>)
    requires SortedBy(s, key)
    ensures SortBy(s, key) == s
  {
    if s != [] {
      assert SortedBy(s[1..], key) by {
        forall i, j | 0 <= i < j < |s[1..]| ensures LexLe(key(s[1..][i]), key(s[1..][j])) {
          assert s[1..][i] == s[i + 1] && s[1..][j] == s[j + 1];
        }
      }
      SortBySortedIdentity(s[1..], key);
      if |s| > 1 {
        assert s[1..][0] == s[1];
      }
      assert s == [s[0]] + s[1..];
    }
  }

  /** The single-key and three-key comparators. */
  lemma LexLeSingle(a: int, b: int)
    ensures LexLe([a], [b]) <==> a <= b
  {
    assert [a][1..] == [] && [b][1..] == [];
    assert LexLe([], []);
  }

  lemma LexLeTriple(a1: int, a2: int, a3: int, b1: int, b2: int, b3: int)
    ensures LexLe([a1, a2, a3], [b1, b2, b3]) <==>
            a1 < b1 || (a1 == b1 && (a2 < b2 || (a2 == b2 && a3 <= b3)))
  {
    assert [a1, a2, a3][1..] == [a2, a3] && [b1, b2, b3][1..] == [b2, b3];
    assert [a2, a3][1..] == [a3] && [b2, b3][1..] == [b3];
    LexLeSingle(a3, b3);
  }
}
