/** The order both database back ends page through: newest first, larger id first on a tie.

    A `Ref` is an article's id with its publication time in nanoseconds. The order is total on
    refs, so a finite set of refs has exactly one strictly descending listing. */
module Timeline {
  import opened Results

  datatype Ref = Ref(id: int, publishedAt: int)

  predicate Before(a: Ref, b: Ref) {
    a.publishedAt > b.publishedAt || (a.publishedAt == b.publishedAt && a.id > b.id)
  }

  predicate Descending(s: seq<Ref>) {
    forall i, j :: 0 <= i < j < |s| ==> Before(s[i], s[j])
  }

  ghost predicate Lists(s: seq<Ref>, S: set<Ref>) {
    Descending(s) && forall r :: r in s <==> r in S
  }

  function SetOf(s: seq<Ref>): set<Ref> {
    set r | r in s
  }

  ghost predicate IsNewest(x: Ref, S: set<Ref>) {
    x in S && forall y :: y in S ==> y == x || Before(x, y)
  }

  lemma {:induction false} NewestExists(S: set<Ref>)
    requires S != {}
    ensures exists x :: IsNewest(x, S)
    decreases |S|
  {
    var x :| x in S;
    var rest := S - {x};
    assert forall y :: y in S ==> y == x || y in rest;
    if rest == {} {
      assert IsNewest(x, S);
    } else {
      NewestExists(rest);
      var z :| IsNewest(z, rest);
      assert IsNewest(if Before(x, z) then x else z, S);
    }
  }

  /** The refs of S, newest first. */
  function Listing(S: set<Ref>): (s: seq<Ref>)
    ensures Lists(s, S)
    decreases |S|
  {
    if S == {} then [] else
      NewestExists(S);
      var x :| x in S && forall y :: y in S ==> y == x || Before(x, y);
      [x] + Listing(S - {x})
  }

  /** At most the first k elements. */
  function Take<T>(s: seq<T>, k: nat): seq<T> {
    if k <= |s| then s[..k] else s
  }

  /** A listing whose set keeps the first n refs of a larger set's listing starts with them. */
  lemma {:induction false} PrefixStable(s: seq<Ref>, S: set<Ref>, t: seq<Ref>, T: set<Ref>, n: nat)
    requires Lists(s, S) && Lists(t, T) && T <= S
    requires n <= |s| && forall i :: 0 <= i < n ==> s[i] in T
    ensures n <= |t| && t[..n] == s[..n]
  {
    if n > 0 {
      PrefixStable(s, S, t, T, n - 1);
      var i := n - 1;
      assert s[..i] == t[..i];
      assert forall k :: 0 <= k < i ==> s[k] == t[k] by {
        forall k | 0 <= k < i ensures s[k] == t[k] {
          assert s[..i][k] == t[..i][k];
        }
      }
      var j :| 0 <= j < |t| && t[j] == s[i];
      assert i <= j && t[i] in T;
      var l :| 0 <= l < |s| && s[l] == t[i];
      assert i <= l;
      assert j == i;
      assert t[..n] == t[..i] + [t[i]] && s[..n] == s[..i] + [s[i]];
    }
  }

  lemma {:induction false} ListingUnique(s: seq<Ref>, t: seq<Ref>, S: set<Ref>)
    requires Lists(s, S) && Lists(t, S)
    ensures s == t
  {
    PrefixStable(s, S, t, S, |s|);
    PrefixStable(t, S, s, S, |t|);
    assert s[..|s|] == s && t[..|t|] == t;
  }

  /** Concatenating two listings whose sets are separated by the order lists the union. */
  lemma {:induction false} Join(s: seq<Ref>, t: seq<Ref>)
    requires Descending(s) && Descending(t)
    requires forall a, b :: a in s && b in t ==> Before(a, b)
    ensures Lists(s + t, SetOf(s) + SetOf(t))
  {
  }

  lemma {:induction false} JoinBehind(s: seq<Ref>, t: seq<Ref>, last: Ref)
    requires Descending(s) && Descending(t) && s != [] && last == s[|s| - 1]
    requires forall b :: b in t ==> Before(last, b)
    ensures Descending(s + t)
  {
    forall a, b | a in s && b in t ensures Before(a, b) {
      assert a == last || Before(a, last);
    }
    Join(s, t);
  }

  lemma {:induction false} CardinalityOfDescending(s: seq<Ref>)
    requires Descending(s)
    ensures |SetOf(s)| == |s|
  {
    if s != [] {
      var n := |s| - 1;
      CardinalityOfDescending(s[..n]);
      assert SetOf(s) == SetOf(s[..n]) + {s[n]};
      assert s[n] !in s[..n];
    }
  }

  /** A position in a listing is the number of refs that come before it. */
  lemma {:induction false} RankIsCount(s: seq<Ref>, S: set<Ref>, j: nat)
    requires Lists(s, S) && j < |s|
    ensures |set x | x in S && Before(x, s[j])| == j
  {
    var newer := set x | x in S && Before(x, s[j]);
    forall x | x in newer ensures x in SetOf(s[..j]) {
      var l :| 0 <= l < |s| && s[l] == x;
      assert s[..j][l] == x;
    }
    assert newer == SetOf(s[..j]);
    CardinalityOfDescending(s[..j]);
  }

  /** The refs of S strictly after c in the order: what a keyset condition keeps. */
  function After(S: set<Ref>, c: Ref): set<Ref> {
    set r | r in S && Before(c, r)
  }

  /** The refs of S behind a position; all of them at the start. */
  function Behind(S: set<Ref>, pos: Option<Ref>): set<Ref> {
    if pos.None? then S else After(S, pos.value)
  }

  /** Cutting a listing behind position p lists exactly the refs after s[p]. */
  lemma {:induction false} SuffixListsAfter(s: seq<Ref>, S: set<Ref>, p: nat)
    requires Lists(s, S) && p < |s|
    ensures Lists(s[p + 1..], After(S, s[p]))
  {
    forall r | r in After(S, s[p]) ensures r in s[p + 1..] {
      var j :| 0 <= j < |s| && s[j] == r;
      assert j > p;
      assert s[p + 1..][j - p - 1] == r;
    }
  }
}
