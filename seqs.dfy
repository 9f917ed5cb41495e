/**
 * Generic facts about sequences. A `WHERE` clause and `Array.prototype.filter`
 * are both `Filter`; an `ORDER BY` is `SortBy`.
 */
module Seqs {

  /** `a` is `b` with some elements dropped and the rest kept in order. */
  ghost predicate IsSubseq<T>(a: seq<T>, b: seq<T>)
    decreases |b|
  {
    a == [] || (b != [] && ((a[0] == b[0] && IsSubseq(a[1..], b[1..])) || IsSubseq(a, b[1..])))
  }

  lemma {:induction false} SubseqOfSelf<T>(s: seq<T>)
    ensures IsSubseq(s, s)
    decreases |s|
  {
    if s != [] {
      SubseqOfSelf(s[1..]);
    }
  }

  /** Every ordered pair of positions `i < j` satisfies `R`. */
  ghost predicate Pairwise<T>(s: seq<T>, R: (T, T) -> bool)
  {
    forall i, j :: 0 <= i < j < |s| ==> R(s[i], s[j])
  }

  /** The elements of `s` satisfying `p`, in their original order. */
  function Filter<T(==, !new)>(s: seq<T>, p: T -> bool): (r: seq<T>)
    ensures |r| <= |s|
    ensures forall x :: x in r <==> x in s && p(x)
    ensures IsSubseq(r, s)
  {
    if s == [] then []
    else
      var rest := Filter(s[1..], p);
      if p(s[0]) then
        assert ([s[0]] + rest)[1..] == rest;
        [s[0]] + rest
      else rest
  }

  /** Dropping elements never breaks a pairwise property. */
  lemma {:induction false} FilterPairwise<T(!new)>(s: seq<T>, p: T -> bool, R: (T, T) -> bool)
    requires Pairwise(s, R)
    ensures Pairwise(Filter(s, p), R)
  {
    if s != [] {
      var tail := s[1..];
      assert Pairwise(tail, R) by {
        forall i, j | 0 <= i < j < |tail| ensures R(tail[i], tail[j]) {
          assert tail[i] == s[i + 1] && tail[j] == s[j + 1];
        }
      }
      FilterPairwise(tail, p, R);
      var rest := Filter(tail, p);
      if p(s[0]) {
        var r := [s[0]] + rest;
        forall i, j | 0 <= i < j < |r| ensures R(r[i], r[j]) {
          if i == 0 {
            assert r[j] == rest[j - 1];
            assert rest[j - 1] in tail;
            var k :| 0 <= k < |tail| && tail[k] == rest[j - 1];
            assert s[k + 1] == r[j];
          } else {
            assert r[i] == rest[i - 1] && r[j] == rest[j - 1];
          }
        }
      }
    }
  }

  /** The number of leading elements whose key does not exceed `key(x)`: where a stable insertion puts `x`. */
  function InsertPos<T>(s: seq<T>, x: T, key: T -> int): (p: nat)
    ensures p <= |s|
    ensures forall i :: 0 <= i < p ==> key(s[i]) <= key(x)
    ensures p < |s| ==> key(x) < key(s[p])
  {
    if s == [] || key(x) < key(s[0]) then 0 else 1 + InsertPos(s[1..], x, key)
  }

  ghost predicate SortedBy<T>(s: seq<T>, key: T -> int)
  {
    forall i, j :: 0 <= i < j < |s| ==> key(s[i]) <= key(s[j])
  }

  ghost predicate StrictlySortedBy<T>(s: seq<T>, key: T -> int)
  {
    forall i, j :: 0 <= i < j < |s| ==> key(s[i]) < key(s[j])
  }

  /** Inserts `x` after every element whose key is at most `key(x)`. */
  function InsertBy<T(==, !new)>(s: seq<T>, x: T, key: T -> int): (r: seq<T>)
    ensures |r| == |s| + 1
    ensures multiset(r) == multiset(s) + multiset{x}
    ensures forall y :: y in r <==> y in s || y == x
  {
    var p := InsertPos(s, x, key);
    assert s == s[..p] + s[p..];
    s[..p] + [x] + s[p..]
  }

  /** Where each element of the insertion comes from: the prefix, then `x`, then the rest shifted by one. */
  lemma InsertIndex<T(!new)>(s: seq<T>, x: T, key: T -> int)
    ensures var p := InsertPos(s, x, key);
      var r := InsertBy(s, x, key);
      && (forall i :: 0 <= i < p ==> r[i] == s[i])
      && r[p] == x
      && (forall i :: p < i < |r| ==> r[i] == s[i - 1])
  {
    var p := InsertPos(s, x, key);
    assert InsertBy(s, x, key) == s[..p] + [x] + s[p..];
  }

  lemma InsertKeepsSorted<T(!new)>(s: seq<T>, x: T, key: T -> int)
    requires SortedBy(s, key)
    ensures SortedBy(InsertBy(s, x, key), key)
  {
    var p := InsertPos(s, x, key);
    var r := InsertBy(s, x, key);
    InsertIndex(s, x, key);
    forall i, j | 0 <= i < j < |r| ensures key(r[i]) <= key(r[j]) {
      if i < p && p < j {
        assert key(s[i]) <= key(x) < key(s[p]) <= key(s[j - 1]);
      } else if i == p {
        assert key(x) < key(s[p]) <= key(s[j - 1]);
      } else if p < i {
        assert key(s[i - 1]) <= key(s[j - 1]);
      }
    }
  }

  lemma InsertKeepsStrict<T(!new)>(s: seq<T>, x: T, key: T -> int)
    requires StrictlySortedBy(s, key)
    requires forall y :: y in s ==> key(y) != key(x)
    ensures StrictlySortedBy(InsertBy(s, x, key), key)
  {
    var p := InsertPos(s, x, key);
    var r := InsertBy(s, x, key);
    InsertIndex(s, x, key);
    forall i, j | 0 <= i < j < |r| ensures key(r[i]) < key(r[j]) {
      if j == p {
        assert key(s[i]) <= key(x) && s[i] in s;
      } else if i < p && p < j {
        assert key(s[i]) <= key(x) < key(s[p]) <= key(s[j - 1]);
      } else if i == p {
        assert key(x) < key(s[p]) <= key(s[j - 1]);
      } else if p < i {
        assert key(s[i - 1]) < key(s[j - 1]);
      }
    }
  }

  /** No two positions of `s` share a key. */
  ghost predicate KeysDistinct<T>(s: seq<T>, key: T -> int)
  {
    forall i, j :: 0 <= i < j < |s| ==> key(s[i]) != key(s[j])
  }

  /** A stable insertion sort: a permutation of `s`, ordered by `key`, strictly when the keys of `s` are distinct. */
  function SortBy<T(==, !new)>(s: seq<T>, key: T -> int): (r: seq<T>)
    ensures multiset(r) == multiset(s)
    ensures SortedBy(r, key)
    ensures KeysDistinct(s, key) ==> StrictlySortedBy(r, key)
  {
    if s == [] then []
    else
      var init := s[..|s| - 1];
      var sorted := SortBy(init, key);
      InsertKeepsSorted(sorted, s[|s| - 1], key);
      InsertLastKeepsStrict(s, sorted, key);
      assert s == init + [s[|s| - 1]];
      InsertBy(sorted, s[|s| - 1], key)
  }

  /** The step of the sort: inserting the last element into the sorted prefix stays strict when keys are distinct. */
  lemma InsertLastKeepsStrict<T(!new)>(s: seq<T>, sorted: seq<T>, key: T -> int)
    requires s != [] && multiset(sorted) == multiset(s[..|s| - 1])
    requires KeysDistinct(s[..|s| - 1], key) ==> StrictlySortedBy(sorted, key)
    ensures KeysDistinct(s, key) ==> StrictlySortedBy(InsertBy(sorted, s[|s| - 1], key), key)
  {
    var init := s[..|s| - 1];
    var last := s[|s| - 1];
    if KeysDistinct(s, key) {
      assert KeysDistinct(init, key) by {
        forall i, j | 0 <= i < j < |init| ensures key(init[i]) != key(init[j]) {
          assert init[i] == s[i] && init[j] == s[j];
        }
      }
      forall y | y in sorted ensures key(y) != key(last) {
        assert y in multiset(sorted);
        assert y in multiset(init);
        var k :| 0 <= k < |init| && init[k] == y;
        assert s[k] == y;
      }
      InsertKeepsStrict(sorted, last, key);
    }
  }

  /** Inserting an element related both ways to every element keeps a pairwise property. */
  lemma InsertPairwise<T(!new)>(s: seq<T>, x: T, key: T -> int, R: (T, T) -> bool)
    requires Pairwise(s, R)
    requires forall y :: y in s ==> R(y, x) && R(x, y)
    ensures Pairwise(InsertBy(s, x, key), R)
  {
    var p := InsertPos(s, x, key);
    var r := InsertBy(s, x, key);
    InsertIndex(s, x, key);
    forall i, j | 0 <= i < j < |r| ensures R(r[i], r[j]) {
      if j == p {
        assert s[i] in s;
      } else if i == p {
        assert s[j - 1] in s;
      } else if i < p && p < j {
        assert R(s[i], s[j - 1]);
      } else if p < i {
        assert R(s[i - 1], s[j - 1]);
      }
    }
  }

  /** No value occurs twice. */
  ghost predicate Distinct<T>(s: seq<T>)
  {
    forall a, b :: 0 <= a < b < |s| ==> s[a] != s[b]
  }

  /** A sequence is free of repeats exactly when no value occurs in it more than once. */
  lemma {:induction false} DistinctByCount<T>(s: seq<T>)
    ensures Distinct(s) <==> forall v :: multiset(s)[v] <= 1
  {
    if s == [] {
    } else {
      var t := s[1..];
      assert s == [s[0]] + t;
      DistinctByCount(t);
      if Distinct(s) {
        assert Distinct(t) by {
          forall a, b | 0 <= a < b < |t| ensures t[a] != t[b] {
            assert t[a] == s[a + 1] && t[b] == s[b + 1];
          }
        }
        assert s[0] !in t by {
          forall k | 0 <= k < |t| ensures t[k] != s[0] {
            assert t[k] == s[k + 1];
          }
        }
        forall v ensures multiset(s)[v] <= 1 {
          assert multiset(s)[v] == multiset([s[0]])[v] + multiset(t)[v];
        }
      }
      if forall v :: multiset(s)[v] <= 1 {
        forall a, b | 0 <= a < b < |s| ensures s[a] != s[b] {
          assert s == s[..b] + s[b..];
          assert multiset(s)[s[b]] == multiset(s[..b])[s[b]] + multiset(s[b..])[s[b]];
          assert s[b] in s[b..] && s[a] in s[..b];
        }
      }
    }
  }
}

