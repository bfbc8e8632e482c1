/** Generic facts about filtering sequences and about keys that are unique
    within a sequence. The wishlist store is a sequence of rows, so a
    `SELECT ... WHERE`, a `DELETE ... WHERE` and a unique index are all
    stated in terms of the two notions defined here. */
module Seqs {

  /** The elements of `s` that satisfy `p`, in their original order. */
  function Filter<T(==,!new)>(s: seq<T>, p: T -> bool): (r: seq<T>)
    ensures |r| <= |s|
    ensures forall x :: x in r <==> x in s && p(x)
  {
    if |s| == 0 then []
    else if p(s[0]) then [s[0]] + Filter(s[1..], p)
    else Filter(s[1..], p)
  }

  /** The complement of a predicate. */
  function Not<T>(p: T -> bool): T -> bool
  {
    x => !p(x)
  }

  /** No two distinct positions of `s` carry the same key. */
  ghost predicate UniqueBy<T, K>(s: seq<T>, key: T -> K)
  {
    forall i, j :: 0 <= i < j < |s| ==> key(s[i]) != key(s[j])
  }

  /** Filtering distributes over concatenation: the elements kept from an
      earlier part stay ahead of those kept from a later part. */
  lemma {:induction false} FilterAppend<T(!new)>(a: seq<T>, b: seq<T>, p: T -> bool)
    ensures Filter(a + b, p) == Filter(a, p) + Filter(b, p)
  {
    if |a| == 0 {
      assert a + b == b;
    } else {
      assert (a + b)[0] == a[0];
      assert (a + b)[1..] == a[1..] + b;
      FilterAppend(a[1..], b, p);
    }
  }

  /** A filter that keeps every element is the identity. */
  lemma {:induction false} FilterKeepsAll<T(!new)>(s: seq<T>, p: T -> bool)
    requires forall x :: x in s ==> p(x)
    ensures Filter(s, p) == s
  {
    if |s| != 0 {
      assert s[0] in s;
      assert forall x :: x in s[1..] ==> x in s;
      FilterKeepsAll(s[1..], p);
      assert [s[0]] + s[1..] == s;
    }
  }

  /** A filter that keeps no element yields the empty sequence. */
  lemma {:induction false} FilterKeepsNone<T(!new)>(s: seq<T>, p: T -> bool)
    requires forall x :: x in s ==> !p(x)
    ensures Filter(s, p) == []
  {
    if |s| != 0 {
      assert s[0] in s;
      assert forall x :: x in s[1..] ==> x in s;
      FilterKeepsNone(s[1..], p);
    }
  }

  /** Filtering by a predicate and by its complement splits `s` in two. */
  lemma {:induction false} FilterPartition<T(!new)>(s: seq<T>, p: T -> bool)
    ensures |Filter(s, p)| + |Filter(s, Not(p))| == |s|
  {
    if |s| != 0 {
      FilterPartition(s[1..], p);
    }
  }

  /** Filtering never introduces a repeated key. */
  lemma {:induction false} FilterUnique<T(!new), K>(s: seq<T>, p: T -> bool, key: T -> K)
    requires UniqueBy(s, key)
    ensures UniqueBy(Filter(s, p), key)
  {
    if |s| != 0 {
      var tail := s[1..];
      assert UniqueBy(tail, key) by {
        forall i, j | 0 <= i < j < |tail|
          ensures key(tail[i]) != key(tail[j])
        {
          assert tail[i] == s[i + 1] && tail[j] == s[j + 1];
        }
      }
      FilterUnique(tail, p, key);
      var rest := Filter(tail, p);
      if p(s[0]) {
        forall x | x in rest
          ensures key(x) != key(s[0])
        {
          var k :| 0 <= k < |tail| && tail[k] == x;
          assert x == s[k + 1];
        }
        UniqueCons(s[0], rest, key);
      }
    }
  }

  /** Putting an element in front keeps keys unique when its key is new. */
  lemma UniqueCons<T(!new), K>(x: T, s: seq<T>, key: T -> K)
    requires UniqueBy(s, key)
    requires forall y :: y in s ==> key(y) != key(x)
    ensures UniqueBy([x] + s, key)
  {
    var t := [x] + s;
    forall i, j | 0 <= i < j < |t|
      ensures key(t[i]) != key(t[j])
    {
      assert t[j] == s[j - 1];
      if i > 0 {
        assert t[i] == s[i - 1];
      } else {
        assert s[j - 1] in s;
      }
    }
  }

  /** Appending an element keeps keys unique exactly when its key is new. */
  lemma UniqueSnoc<T(!new), K>(s: seq<T>, x: T, key: T -> K)
    ensures UniqueBy(s + [x], key) <==> UniqueBy(s, key) && forall y :: y in s ==> key(y) != key(x)
  {
    var t := s + [x];
    if UniqueBy(t, key) {
      forall y | y in s
        ensures key(y) != key(x)
      {
        var k :| 0 <= k < |s| && s[k] == y;
        assert t[k] == y && t[|s|] == x;
      }
      forall i, j | 0 <= i < j < |s|
        ensures key(s[i]) != key(s[j])
      {
        assert t[i] == s[i] && t[j] == s[j];
      }
    }
    if UniqueBy(s, key) && forall y :: y in s ==> key(y) != key(x) {
      forall i, j | 0 <= i < j < |t|
        ensures key(t[i]) != key(t[j])
      {
        assert t[i] == s[i];
        if j == |s| {
          assert s[i] in s;
        } else {
          assert t[j] == s[j];
        }
      }
    }
  }

  /** Under a unique key, at most one element matches any one key value. */
  lemma {:induction false} UniqueKeyMatchesAtMostOnce<T(!new), K>(s: seq<T>, key: T -> K, p: T -> bool)
    requires UniqueBy(s, key)
    requires forall x, y :: p(x) && p(y) ==> key(x) == key(y)
    ensures |Filter(s, p)| <= 1
  {
    if |s| != 0 {
      var tail := s[1..];
      assert UniqueBy(tail, key) by {
        forall i, j | 0 <= i < j < |tail|
          ensures key(tail[i]) != key(tail[j])
        {
          assert tail[i] == s[i + 1] && tail[j] == s[j + 1];
        }
      }
      if p(s[0]) {
        forall x | x in tail
          ensures !p(x)
        {
          var k :| 0 <= k < |tail| && tail[k] == x;
          assert s[k + 1] == x;
        }
        FilterKeepsNone(tail, p);
      } else {
        UniqueKeyMatchesAtMostOnce(tail, key, p);
      }
    }
  }
}
