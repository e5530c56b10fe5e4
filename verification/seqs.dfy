/** Sequence helpers: filtering, duplicate-freedom and the multiset facts the
    selection models rely on. */
module Seqs {

  /** The elements of `s` that satisfy `p`, in their original order. */
  function Filter<T(!new)>(s: seq<T>, p: T -> bool): (r: seq<T>)
    ensures |r| <= |s|
    ensures forall x :: x in r <==> x in s && p(x)
  {
    if |s| == 0 then []
    else (if p(s[0]) then [s[0]] else []) + Filter(s[1..], p)
  }

  /** No value occurs twice in `s`. */
  ghost predicate NoDups<T>(s: seq<T>) {
    forall i, j :: 0 <= i < j < |s| ==> s[i] != s[j]
  }

  /** Filtering by a predicate and by its complement splits `s` into two parts
      that together hold exactly the elements of `s`. */
  lemma {:induction false} FilterSplit<T(!new)>(s: seq<T>, p: T -> bool, q: T -> bool)
    requires forall x :: q(x) == !p(x)
    ensures multiset(Filter(s, p)) + multiset(Filter(s, q)) == multiset(s)
  {
    if |s| > 0 {
      FilterSplit(s[1..], p, q);
      assert s == [s[0]] + s[1..];
    }
  }

  /** In a duplicate-free sequence every value occurs at most once. */
  lemma {:induction false} NoDupsCount<T>(s: seq<T>, x: T)
    requires NoDups(s)
    ensures multiset(s)[x] == if x in s then 1 else 0
  {
    if |s| > 0 {
      assert s == [s[0]] + s[1..];
      assert NoDups(s[1..]) by {
        forall i, j | 0 <= i < j < |s[1..]| ensures s[1..][i] != s[1..][j] {
          assert s[1..][i] == s[i + 1] && s[1..][j] == s[j + 1];
        }
      }
      NoDupsCount(s[1..], x);
      assert s[0] !in s[1..] by {
        forall k | 0 <= k < |s[1..]| ensures s[1..][k] != s[0] {
          assert s[1..][k] == s[k + 1];
        }
      }
    }
  }

  /** Two duplicate-free sequences with the same elements are permutations of
      each other. */
  lemma SameElementsSameMultiset<T>(a: seq<T>, b: seq<T>)
    requires NoDups(a) && NoDups(b)
    requires forall x :: x in a <==> x in b
    ensures multiset(a) == multiset(b)
  {
    forall x ensures multiset(a)[x] == multiset(b)[x] {
      NoDupsCount(a, x);
      NoDupsCount(b, x);
    }
  }

  /** A value found at two distinct positions occurs at least twice. */
  lemma RepeatCount<T>(s: seq<T>, i: int, j: int)
    requires 0 <= i < j < |s| && s[i] == s[j]
    ensures multiset(s)[s[i]] >= 2
  {
    assert s == s[..j] + s[j..];
    assert s[i] in s[..j];
    assert s[j] in s[j..];
  }

  /** A permutation of a duplicate-free sequence is duplicate-free. */
  lemma NoDupsPermutation<T>(a: seq<T>, b: seq<T>)
    requires multiset(a) == multiset(b) && NoDups(a)
    ensures NoDups(b)
  {
    forall i, j | 0 <= i < j < |b| ensures b[i] != b[j] {
      if b[i] == b[j] {
        RepeatCount(b, i, j);
        NoDupsCount(a, b[i]);
      }
    }
  }

  /** Filtering keeps every copy of a value that satisfies the predicate and
      no copy of one that does not. */
  lemma {:induction false} FilterCount<T(!new)>(s: seq<T>, p: T -> bool, x: T)
    ensures multiset(Filter(s, p))[x] == if p(x) then multiset(s)[x] else 0
  {
    if |s| > 0 {
      FilterCount(s[1..], p, x);
      assert s == [s[0]] + s[1..];
    }
  }

  /** Filtering by a predicate every element satisfies changes nothing. */
  lemma {:induction false} FilterAll<T(!new)>(s: seq<T>, p: T -> bool)
    requires forall i :: 0 <= i < |s| ==> p(s[i])
    ensures Filter(s, p) == s
  {
    if |s| > 0 {
      FilterAll(s[1..], p);
      assert s == [s[0]] + s[1..];
    }
  }

  /** Filtering out the one element that fails the predicate deletes that
      position and keeps the others in order. */
  lemma {:induction false} FilterDropsOne<T(!new)>(s: seq<T>, p: T -> bool, k: int)
    requires 0 <= k < |s| && !p(s[k])
    requires forall i :: 0 <= i < |s| && i != k ==> p(s[i])
    ensures Filter(s, p) == s[..k] + s[k + 1..]
  {
    var t := s[1..];
    if k == 0 {
      assert Filter(t, p) == t by {
        forall i | 0 <= i < |t| ensures p(t[i]) {
          assert t[i] == s[i + 1];
        }
        FilterAll(t, p);
      }
      assert s[..0] + s[1..] == t;
    } else {
      assert Filter(s, p) == [s[0]] + Filter(t, p) by {
        assert p(s[0]);
      }
      assert Filter(t, p) == t[..k - 1] + t[k..] by {
        forall i | 0 <= i < |t| && i != k - 1 ensures p(t[i]) {
          assert t[i] == s[i + 1];
        }
        assert t[k - 1] == s[k];
        FilterDropsOne(t, p, k - 1);
      }
      ConsSplice(s, k);
    }
  }

  /** Deleting position `k > 0` commutes with taking the head off. */
  lemma ConsSplice<T>(s: seq<T>, k: int)
    requires 0 < k < |s|
    ensures [s[0]] + (s[1..][..k - 1] + s[1..][k..]) == s[..k] + s[k + 1..]
  {
    assert s[1..][..k - 1] == s[1..k] && s[1..][k..] == s[k + 1..];
    assert [s[0]] + s[1..k] == s[..k];
  }

  /** A sequence with no members is empty. */
  lemma EmptyWithoutMembers<T>(u: seq<T>)
    ensures (forall x :: x !in u) ==> |u| == 0
  {
    if |u| > 0 {
      assert u[0] in u;
    }
  }
}
