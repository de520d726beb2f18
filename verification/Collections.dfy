/** Small facts about sets and sequences used throughout. */
module Collections {
  /** The integers lo, lo+1, ..., hi-1. */
  function Range(lo: int, hi: int): (s: set<int>)
    ensures forall j :: j in s <==> lo <= j < hi
    decreases hi - lo
  {
    if lo >= hi then {} else {lo} + Range(lo + 1, hi)
  }

  ghost predicate Distinct<T>(s: seq<T>) {
    forall i, j :: 0 <= i < j < |s| ==> s[i] != s[j]
  }

  lemma {:induction false} DistinctConcat<T>(s: seq<T>, t: seq<T>)
    requires Distinct(s) && Distinct(t) && forall x :: x in t ==> x !in s
    ensures Distinct(s + t)
  {
    forall i, j | 0 <= i < j < |s + t| ensures (s + t)[i] != (s + t)[j] {
      if j >= |s| {
        assert t[j - |s|] !in s;
      }
    }
  }

  ghost function PickAny<T>(s: set<T>): (x: T)
    requires s != {}
    ensures x in s
  {
    var x :| x in s; x
  }

  /** Any element: the next value of a channel several goroutines send on, or the next key of a Go
      map range. Callers know nothing about which one it is. */
  method AnyOf<T(==)>(s: set<T>) returns (x: T)
    requires s != {}
    ensures x in s
  {
    x :| x in s;
  }

  lemma {:induction false} SameSet<T>(a: set<T>, b: set<T>)
    requires forall x :: x in a <==> x in b
    ensures a == b
  {
  }

  lemma {:induction false} SameMap<K, V>(a: map<K, V>, b: map<K, V>)
    requires forall k :: k in a <==> k in b
    requires forall k :: k in a ==> a[k] == b[k]
    ensures a == b
  {
  }

  lemma {:induction false} SameCounts<T>(a: multiset<T>, b: multiset<T>)
    requires forall x :: a[x] == b[x]
    ensures a == b
  {
  }

  /** A permutation has the same length and elements. */
  lemma {:induction false} PermutedSeq<T>(s: seq<T>, t: seq<T>)
    requires multiset(s) == multiset(t)
    ensures |s| == |t| && forall x :: x in s <==> x in t
  {
    assert |multiset(s)| == |s| && |multiset(t)| == |t|;
    forall x ensures x in s <==> x in t {
      assert x in multiset(s) <==> x in multiset(t);
    }
  }

  lemma {:induction false} CountedTwice<T>(t: seq<T>, i: nat, j: nat)
    requires i < j < |t| && t[i] == t[j]
    ensures multiset(t)[t[i]] >= 2
  {
    assert t == t[..i] + [t[i]] + t[i + 1..j] + [t[j]] + t[j + 1..];
  }

  lemma {:induction false} DistinctCounts<T>(s: seq<T>)
    requires Distinct(s)
    ensures forall x :: x in s ==> multiset(s)[x] == 1
  {
    if s != [] {
      var n := |s| - 1;
      DistinctCounts(s[..n]);
      assert s == s[..n] + [s[n]];
      assert s[n] !in multiset(s[..n]);
    }
  }

  lemma {:induction false} PermutedDistinct<T>(s: seq<T>, t: seq<T>)
    requires multiset(s) == multiset(t) && Distinct(s)
    ensures Distinct(t) && forall x :: x in t <==> x in s
  {
    PermutedSeq(s, t);
    DistinctCounts(s);
    forall i, j | 0 <= i < j < |t| ensures t[i] != t[j] {
      if t[i] == t[j] {
        CountedTwice(t, i, j);
      }
    }
  }

  /** The elements that satisfy p, in order. */
  function Where<T>(s: seq<T>, p: T -> bool): seq<T> {
    if s == [] then [] else
      var n := |s| - 1;
      Where(s[..n], p) + (if p(s[n]) then [s[n]] else [])
  }

  lemma {:induction false} WhereMembers<T>(s: seq<T>, p: T -> bool)
    ensures forall x :: x in Where(s, p) <==> x in s && p(x)
  {
    if s != [] {
      var n := |s| - 1;
      WhereMembers(s[..n], p);
      assert s == s[..n] + [s[n]];
    }
  }

  lemma {:induction false} WhereNone<T>(s: seq<T>, p: T -> bool)
    ensures Where(s, p) == [] <==> forall x :: x in s ==> !p(x)
  {
    if s != [] {
      var n := |s| - 1;
      WhereNone(s[..n], p);
      assert s == s[..n] + [s[n]];
    }
  }

  lemma {:induction false} WhereAll<T>(s: seq<T>, p: T -> bool)
    ensures |Where(s, p)| <= |s|
    ensures |Where(s, p)| == |s| ==> Where(s, p) == s
    ensures Where(s, p) == s <==> forall x :: x in s ==> p(x)
  {
    if s != [] {
      var n := |s| - 1;
      WhereAll(s[..n], p);
      assert s == s[..n] + [s[n]];
      if Where(s, p) == s {
        assert |Where(s[..n], p)| == n;
      }
    }
  }

  lemma {:induction false} SomeWhere<T>(s: seq<T>, p: T -> bool) returns (x: T)
    requires Where(s, p) != []
    ensures x in s && p(x)
  {
    WhereNone(s, p);
    x :| x in s && p(x);
  }

  lemma {:induction false} WhereSplit<T>(a: seq<T>, b: seq<T>, p: T -> bool)
    ensures Where(a + b, p) == Where(a, p) + Where(b, p)
  {
    if b == [] {
      assert a + b == a;
    } else {
      var n := |b| - 1;
      WhereSplit(a, b[..n], p);
      assert (a + b)[..|a + b| - 1] == a + b[..n];
    }
  }

  lemma {:induction false} WhereCounts<T>(s: seq<T>, p: T -> bool, x: T)
    ensures multiset(Where(s, p))[x] == if p(x) then multiset(s)[x] else 0
  {
    if s != [] {
      var n := |s| - 1;
      WhereCounts(s[..n], p, x);
      assert s == s[..n] + [s[n]];
    }
  }

  lemma {:induction false} WherePermuted<T>(s: seq<T>, t: seq<T>, p: T -> bool)
    requires multiset(s) == multiset(t)
    ensures multiset(Where(s, p)) == multiset(Where(t, p)) && |Where(s, p)| == |Where(t, p)|
  {
    forall x ensures multiset(Where(s, p))[x] == multiset(Where(t, p))[x] {
      WhereCounts(s, p, x);
      WhereCounts(t, p, x);
    }
    SameCounts(multiset(Where(s, p)), multiset(Where(t, p)));
    PermutedSeq(Where(s, p), Where(t, p));
  }

  lemma {:induction false} MinusTwice<T>(a: set<T>, b: set<T>, c: set<T>)
    ensures a - b - c == a - (b + c)
  {
  }

  lemma {:induction false} SubsetCardinality<T>(a: set<T>, b: set<T>)
    requires a <= b
    ensures |a| <= |b|
  {
    if a != {} {
      var x :| x in a;
      SubsetCardinality(a - {x}, b - {x});
    }
  }

  lemma {:induction false} SameSizeSubset<T>(a: set<T>, b: set<T>)
    requires a <= b && |a| >= |b|
    ensures forall x :: x in b ==> x in a
  {
    if x :| x in b && x !in a {
      SubsetCardinality(a, b - {x});
    }
  }

  lemma {:induction false} DistinctCardinality<T>(s: seq<T>)
    requires Distinct(s)
    ensures |set x | x in s| == |s|
  {
    if s != [] {
      var n := |s| - 1;
      var front := s[..n];
      DistinctCardinality(front);
      assert s == front + [s[n]];
      SameSet(set x | x in s, (set x | x in front) + {s[n]});
    }
  }

  /** Some number not in use yet. */
  lemma {:induction false} FreshId(ids: set<int>) returns (newId: int)
    ensures newId !in ids && forall x :: x in ids ==> x < newId
    decreases |ids|
  {
    if ids == {} {
      newId := 0;
    } else {
      var x := PickAny(ids);
      var m := FreshId(ids - {x});
      newId := if x < m then m else x + 1;
      forall y | y in ids ensures y < newId {
        assert y == x || y in ids - {x};
      }
    }
  }

  function Min(a: int, b: int): int {
    if a < b then a else b
  }
}
