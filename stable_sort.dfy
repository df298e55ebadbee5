/**
 * Python's `list.sort(key=...)` and `sorted(..., key=...)`: a stable sort by a key.
 * Keys are pairs compared lexicographically, which covers the keys the program uses:
 * `(Frame, Class)`, `Frame` alone (minor part 0) and the segment number of a file name.
 */
module StableSort {

  datatype SortKey = SortKey(major: int, minor: int)

  predicate KeyLe(a: SortKey, b: SortKey) {
    a.major < b.major || (a.major == b.major && a.minor <= b.minor)
  }

  predicate KeyLt(a: SortKey, b: SortKey) {
    a.major < b.major || (a.major == b.major && a.minor < b.minor)
  }

  predicate SortedBy<T>(s: seq<T>, key: T -> SortKey) {
    forall i, j :: 0 <= i < j < |s| ==> KeyLe(key(s[i]), key(s[j]))
  }

  /** Sorted with no two elements sharing a key. */
  predicate StrictlySortedBy<T>(s: seq<T>, key: T -> SortKey) {
    forall i, j :: 0 <= i < j < |s| ==> KeyLt(key(s[i]), key(s[j]))
  }

  predicate UniqueKeys<T>(s: seq<T>, key: T -> SortKey) {
    forall i, j :: 0 <= i < j < |s| ==> key(s[i]) != key(s[j])
  }

  /** The elements of `s` whose key is `k`, in the order of `s`. */
  function Tie<T>(s: seq<T>, k: SortKey, key: T -> SortKey): (r: seq<T>)
    ensures |r| <= |s|
  {
    if s == [] then []
    else (if key(s[0]) == k then [s[0]] else []) + Tie(s[1..], k, key)
  }

  /** Inserts `x` before the first element whose key is not smaller than its own. */
  function Insert<T>(x: T, s: seq<T>, key: T -> SortKey): (r: seq<T>)
    ensures |r| == |s| + 1
  {
    if s == [] || KeyLe(key(x), key(s[0])) then [x] + s
    else [s[0]] + Insert(x, s[1..], key)
  }

  function Sort<T>(s: seq<T>, key: T -> SortKey): (r: seq<T>)
    ensures |r| == |s|
  {
    if s == [] then [] else Insert(s[0], Sort(s[1..], key), key)
  }

  lemma {:induction false} InsertMultiset<T>(x: T, s: seq<T>, key: T -> SortKey)
    ensures multiset(Insert(x, s, key)) == multiset(s) + multiset{x}
  {
    if s == [] || KeyLe(key(x), key(s[0])) {
    } else {
      InsertMultiset(x, s[1..], key);
      assert s == [s[0]] + s[1..];
    }
  }

  lemma {:induction false} InsertSorted<T>(x: T, s: seq<T>, key: T -> SortKey)
    requires SortedBy(s, key)
    ensures SortedBy(Insert(x, s, key), key)
  {
    if s == [] || KeyLe(key(x), key(s[0])) {
    } else {
      InsertSorted(x, s[1..], key);
      InsertMultiset(x, s[1..], key);
      var r := Insert(x, s[1..], key);
      forall j | 0 <= j < |r| ensures KeyLe(key(s[0]), key(r[j])) {
        assert r[j] in multiset(r);
        assert r[j] == x || r[j] in s[1..];
      }
    }
  }

  /** Python's sort returns a permutation of its input ... */
  lemma {:induction false} SortMultiset<T>(s: seq<T>, key: T -> SortKey)
    ensures multiset(Sort(s, key)) == multiset(s)
  {
    if s != [] {
      SortMultiset(s[1..], key);
      InsertMultiset(s[0], Sort(s[1..], key), key);
      assert s == [s[0]] + s[1..];
    }
  }

  /** ... ordered by the key ... */
  lemma {:induction false} SortSorted<T>(s: seq<T>, key: T -> SortKey)
    ensures SortedBy(Sort(s, key), key)
  {
    if s != [] {
      SortSorted(s[1..], key);
      InsertSorted(s[0], Sort(s[1..], key), key);
    }
  }

  lemma {:induction false} TieAppend<T>(a: seq<T>, b: seq<T>, k: SortKey, key: T -> SortKey)
    ensures Tie(a + b, k, key) == Tie(a, k, key) + Tie(b, k, key)
  {
    if a == [] {
      assert a + b == b;
    } else {
      var ab := a + b;
      assert ab[0] == a[0] && ab[1..] == a[1..] + b;
      TieAppend(a[1..], b, k, key);
    }
  }

  lemma {:induction false} InsertTie<T>(x: T, s: seq<T>, k: SortKey, key: T -> SortKey)
    requires SortedBy(s, key)
    ensures Tie(Insert(x, s, key), k, key) == (if key(x) == k then [x] else []) + Tie(s, k, key)
  {
    if s == [] || KeyLe(key(x), key(s[0])) {
      assert ([x] + s)[1..] == s;
    } else {
      InsertTie(x, s[1..], k, key);
      assert ([s[0]] + Insert(x, s[1..], key))[1..] == Insert(x, s[1..], key);
    }
  }

  /** ... and it is stable: elements with equal keys keep their input order. */
  lemma {:induction false} SortStable<T>(s: seq<T>, k: SortKey, key: T -> SortKey)
    ensures Tie(Sort(s, key), k, key) == Tie(s, k, key)
  {
    if s != [] {
      SortStable(s[1..], k, key);
      SortSorted(s[1..], key);
      InsertTie(s[0], Sort(s[1..], key), k, key);
    }
  }

  /** Sorting an already sorted sequence changes nothing. */
  lemma {:induction false} SortSortedIsIdentity<T>(s: seq<T>, key: T -> SortKey)
    requires SortedBy(s, key)
    ensures Sort(s, key) == s
  {
    if s != [] {
      assert SortedBy(s[1..], key);
      SortSortedIsIdentity(s[1..], key);
    }
  }

  lemma SortMembership<T>(s: seq<T>, key: T -> SortKey)
    ensures forall x :: x in Sort(s, key) <==> x in s
  {
    SortMultiset(s, key);
    forall x ensures x in Sort(s, key) <==> x in s {
      assert x in Sort(s, key) <==> x in multiset(Sort(s, key));
      assert x in s <==> x in multiset(s);
    }
  }

  lemma {:induction false} UniqueKeysCons<T>(x: T, s: seq<T>, key: T -> SortKey)
    requires UniqueKeys(s, key)
    requires forall y :: y in s ==> key(y) != key(x)
    ensures UniqueKeys([x] + s, key)
  {
    var r := [x] + s;
    forall i, j | 0 <= i < j < |r| ensures key(r[i]) != key(r[j]) {
      if i == 0 {
        assert r[j] == s[j - 1];
      } else {
        assert r[i] == s[i - 1] && r[j] == s[j - 1];
      }
    }
  }

  lemma {:induction false} InsertUniqueKeys<T>(x: T, s: seq<T>, key: T -> SortKey)
    requires UniqueKeys(s, key)
    requires forall y :: y in s ==> key(y) != key(x)
    ensures UniqueKeys(Insert(x, s, key), key)
  {
    if s == [] || KeyLe(key(x), key(s[0])) {
      UniqueKeysCons(x, s, key);
    } else {
      assert UniqueKeys(s[1..], key);
      InsertUniqueKeys(x, s[1..], key);
      InsertMultiset(x, s[1..], key);
      var r := Insert(x, s[1..], key);
      forall y | y in r ensures key(y) != key(s[0]) {
        assert y in multiset(r);
        assert y == x || y in s[1..];
      }
      UniqueKeysCons(s[0], r, key);
    }
  }

  /** Sorting keeps keys distinct when they were distinct. */
  lemma {:induction false} SortUniqueKeys<T>(s: seq<T>, key: T -> SortKey)
    requires UniqueKeys(s, key)
    ensures UniqueKeys(Sort(s, key), key)
  {
    if s != [] {
      assert UniqueKeys(s[1..], key);
      SortUniqueKeys(s[1..], key);
      SortMultiset(s[1..], key);
      forall y | y in Sort(s[1..], key) ensures key(y) != key(s[0]) {
        assert y in multiset(Sort(s[1..], key));
        assert y in s[1..];
        var j :| 0 <= j < |s[1..]| && s[1..][j] == y;
        assert s[j + 1] == y;
      }
      InsertUniqueKeys(s[0], Sort(s[1..], key), key);
    }
  }

  lemma SortedUniqueIsStrict<T>(s: seq<T>, key: T -> SortKey)
    requires SortedBy(s, key) && UniqueKeys(s, key)
    ensures StrictlySortedBy(s, key)
  {
  }

  /** A sorted permutation of a sequence with distinct keys is strictly sorted. */
  lemma SortStrict<T>(s: seq<T>, key: T -> SortKey)
    requires UniqueKeys(s, key)
    ensures StrictlySortedBy(Sort(s, key), key)
  {
    SortSorted(s, key);
    SortUniqueKeys(s, key);
    SortedUniqueIsStrict(Sort(s, key), key);
  }

  /** Two strictly sorted runs whose keys are ordered across the seam make one strictly sorted run. */
  lemma StrictAppend<T>(a: seq<T>, b: seq<T>, key: T -> SortKey)
    requires StrictlySortedBy(a, key) && StrictlySortedBy(b, key)
    requires forall x, y :: x in a && y in b ==> KeyLt(key(x), key(y))
    ensures StrictlySortedBy(a + b, key)
  {
    var s := a + b;
    forall i, j | 0 <= i < j < |s| ensures KeyLt(key(s[i]), key(s[j])) {
      if j < |a| {
        assert s[i] == a[i] && s[j] == a[j];
      } else if i < |a| {
        assert s[i] == a[i] && s[j] == b[j - |a|];
        assert a[i] in a && b[j - |a|] in b;
      } else {
        assert s[i] == b[i - |a|] && s[j] == b[j - |a|];
      }
    }
  }
}
