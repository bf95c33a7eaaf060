// The replacement policy the page cache implements, stated on plain
// sequences ordered from most recently used (index 0, the list head) to
// least recently used (the last element, the list tail).  The linked list
// in LruList and the cache in PageCache are proved against these functions.

module LruPolicy {

  /** No element occurs twice. */
  ghost predicate Distinct<T>(s: seq<T>)
  {
    forall i, j | 0 <= i < j < |s| :: s[i] != s[j]
  }

  /** `s` with every occurrence of `x` taken out, the others in their order. */
  function Without<T(==)>(s: seq<T>, x: T): (r: seq<T>)
    ensures x !in r
    ensures forall y | y in r :: y in s && y != x
    ensures forall y | y in s && y != x :: y in r
    ensures |r| <= |s|
  {
    if s == [] then []
    else if s[0] == x then Without(s[1..], x)
    else [s[0]] + Without(s[1..], x)
  }

  lemma {:induction false} WithoutAbsent<T>(s: seq<T>, x: T)
    requires x !in s
    ensures Without(s, x) == s
  {
    if s != [] {
      WithoutAbsent(s[1..], x);
    }
  }

  lemma {:induction false} WithoutDistinct<T>(s: seq<T>, x: T)
    requires Distinct(s)
    ensures Distinct(Without(s, x))
    ensures |Without(s, x)| == if x in s then |s| - 1 else |s|
  {
    if s != [] {
      assert Distinct(s[1..]);
      WithoutDistinct(s[1..], x);
      if s[0] == x {
        assert x !in s[1..];
      } else {
        assert s[0] !in Without(s[1..], x);
        assert x in s <==> x in s[1..];
      }
    }
  }

  /** An element other than `x` moves no further from the head when `x` is
      taken out: it is found again at an index `j <= i`. */
  lemma {:induction false} WithoutIndex<T>(s: seq<T>, x: T, i: nat) returns (j: nat)
    requires i < |s| && s[i] != x
    ensures j <= i && j < |Without(s, x)| && Without(s, x)[j] == s[i]
  {
    if i == 0 {
      j := 0;
    } else if s[0] == x {
      j := WithoutIndex(s[1..], x, i - 1);
    } else {
      var k := WithoutIndex(s[1..], x, i - 1);
      j := k + 1;
    }
  }

  /** In a list without repeats, taking out the element at `k` is slicing it out. */
  lemma {:induction false} WithoutAt<T>(s: seq<T>, k: nat)
    requires Distinct(s) && k < |s|
    ensures Without(s, s[k]) == s[..k] + s[k + 1..]
  {
    if k == 0 {
      assert s[0] !in s[1..];
      WithoutAbsent(s[1..], s[0]);
    } else {
      var t := s[1..];
      assert Distinct(t) && t[k - 1] == s[k];
      WithoutAt(t, k - 1);
      assert t[..k - 1] + t[k..] == s[1..k] + s[k + 1..];
      assert s[..k] == [s[0]] + s[1..k];
    }
  }

  /** A use of `x`: it becomes the most recently used element, whether it was
      present (move to head) or not (push at the head). */
  function Touch<T(==)>(s: seq<T>, x: T): (r: seq<T>)
    ensures |r| > 0 && r[0] == x
    ensures forall y | y in r :: y == x || y in s
    ensures forall y | y in s :: y in r
  {
    [x] + Without(s, x)
  }

  /** The elements other than `x` keep their relative order. */
  lemma TouchKeepsOthersInOrder<T>(s: seq<T>, x: T)
    ensures Without(Touch(s, x), x) == Without(s, x)
  {
    WithoutAbsent(Without(s, x), x);
  }

  lemma TouchIdempotent<T>(s: seq<T>, x: T)
    ensures Touch(Touch(s, x), x) == Touch(s, x)
  {
    TouchKeepsOthersInOrder(s, x);
  }

  /** Touching the element already at the head changes nothing. */
  lemma TouchHead<T>(s: seq<T>)
    requires Distinct(s) && s != []
    ensures Touch(s, s[0]) == s
  {
    assert s[0] !in s[1..];
    WithoutAbsent(s[1..], s[0]);
  }

  lemma TouchDistinct<T>(s: seq<T>, x: T)
    requires Distinct(s)
    ensures Distinct(Touch(s, x))
    ensures |Touch(s, x)| == if x in s then |s| else |s| + 1
  {
    WithoutDistinct(s, x);
  }

  /** One access under a capacity `cap`: a hit moves `x` to the head; a miss
      on a full list first evicts the least recently used element (the
      last), then pushes `x` at the head. */
  function Access<T(==)>(s: seq<T>, x: T, cap: nat): seq<T>
  {
    if x !in s && |s| >= cap && s != [] then Touch(s[..|s| - 1], x)
    else Touch(s, x)
  }

  /** The capacity and distinctness are kept, and `x` is now the most
      recently used element. */
  lemma AccessBounded<T>(s: seq<T>, x: T, cap: nat)
    requires Distinct(s) && |s| <= cap && 0 < cap
    ensures Distinct(Access(s, x, cap)) && |Access(s, x, cap)| <= cap
    ensures Access(s, x, cap)[0] == x
  {
    if x !in s && |s| >= cap && s != [] {
      var p := s[..|s| - 1];
      assert Distinct(p);
      assert x !in p;
      TouchDistinct(p, x);
    } else {
      TouchDistinct(s, x);
    }
  }

  /** A hit keeps the same elements and only reorders them. */
  lemma AccessHit<T>(s: seq<T>, x: T, cap: nat)
    requires Distinct(s) && x in s
    ensures Access(s, x, cap) == Touch(s, x)
    ensures |Access(s, x, cap)| == |s|
    ensures forall y :: y in Access(s, x, cap) <==> y in s
  {
    TouchDistinct(s, x);
  }

  /** A miss on a full list evicts exactly the least recently used element. */
  lemma AccessEvictsLeastRecent<T>(s: seq<T>, x: T, cap: nat)
    requires Distinct(s) && x !in s && |s| == cap && 0 < cap
    ensures s[|s| - 1] !in Access(s, x, cap)
    ensures forall y :: y in Access(s, x, cap) <==> y == x || (y in s && y != s[|s| - 1])
  {
    var p := s[..|s| - 1];
    forall y
      ensures y in p <==> y in s && y != s[|s| - 1]
    {
      if y in p {
        var i :| 0 <= i < |p| && p[i] == y;
        assert s[i] == y;
      }
      if y in s && y != s[|s| - 1] {
        var i :| 0 <= i < |s| && s[i] == y;
        assert p[i] == y;
      }
    }
  }

  /** A miss below capacity only adds `x` at the head. */
  lemma AccessAdmits<T>(s: seq<T>, x: T, cap: nat)
    requires x !in s && |s| < cap
    ensures Access(s, x, cap) == [x] + s
  {
    WithoutAbsent(s, x);
  }

  /** A miss pushes `x` at the head of what is left after the eviction the
      capacity demands: the whole list below capacity, all but its least
      recently used element at capacity. */
  lemma AccessMiss<T>(s: seq<T>, x: T, cap: nat)
    requires x !in s && |s| <= cap && 0 < cap
    ensures Access(s, x, cap) == [x] + (if |s| == cap then s[..|s| - 1] else s)
  {
    if |s| == cap {
      assert x !in s[..|s| - 1];
      WithoutAbsent(s[..|s| - 1], x);
    } else {
      WithoutAbsent(s, x);
    }
  }

  /** The list after a run of accesses, in order. */
  function Run<T(==)>(s: seq<T>, xs: seq<T>, cap: nat): seq<T>
    decreases |xs|
  {
    if xs == [] then s else Run(Access(s, xs[0], cap), xs[1..], cap)
  }

  /** One access moves any other element at most one place towards the
      tail, and does not evict it while it is not last of a full list. */
  lemma AccessAgesByOne<T>(s: seq<T>, y: T, cap: nat, i: nat) returns (j: nat)
    requires Distinct(s) && |s| <= cap && i < |s| && i + 1 < cap
    ensures j <= i + 1 && j < |Access(s, y, cap)| && Access(s, y, cap)[j] == s[i]
  {
    if s[i] == y {
      j := 0;
    } else if y !in s && |s| >= cap && s != [] {
      var p := s[..|s| - 1];
      assert p[i] == s[i];
      var k := WithoutIndex(p, y, i);
      j := k + 1;
    } else {
      var k := WithoutIndex(s, y, i);
      j := k + 1;
    }
  }

  /** An element at distance `i` from the head survives any run of fewer
      than `cap - i` further accesses: the least recently used element is
      the only one a miss evicts. */
  lemma {:induction false} RecentSurvives<T>(s: seq<T>, xs: seq<T>, cap: nat, i: nat)
    requires Distinct(s) && |s| <= cap && i < |s| && i + |xs| < cap
    ensures s[i] in Run(s, xs, cap)
    decreases |xs|
  {
    if xs != [] {
      var j := AccessAgesByOne(s, xs[0], cap, i);
      AccessBounded(s, xs[0], cap);
      RecentSurvives(Access(s, xs[0], cap), xs[1..], cap, j);
    }
  }
}
