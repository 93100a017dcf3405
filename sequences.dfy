/** Query primitives over the rows of a table, kept in insertion order:
    Select is a WHERE clause (it keeps the order of the rows it keeps),
    SortBy is an ORDER BY, Take is a LIMIT, IndexOf a lookup. */
module Sequences {
  import opened Common

  /** Every earlier element stands in relation `rel` to every later one. */
  ghost predicate Ordered<T>(s: seq<T>, rel: (T, T) -> bool) {
    forall i, j :: 0 <= i < j < |s| ==> rel(s[i], s[j])
  }

  /** The elements of `s` that satisfy `p`, in their original order. */
  function Select<T(!new)>(s: seq<T>, p: T -> bool): (r: seq<T>)
    ensures |r| <= |s|
    ensures forall x :: x in r <==> x in s && p(x)
  {
    if s == [] then []
    else if p(s[0]) then [s[0]] + Select(s[1..], p)
    else Select(s[1..], p)
  }

  /** A filter that every element passes is the identity. */
  lemma {:induction false} SelectAll<T(!new)>(s: seq<T>, p: T -> bool)
    requires forall x :: x in s ==> p(x)
    ensures Select(s, p) == s
  {
    if s != [] {
      SelectAll(s[1..], p);
    }
  }

  /** A filter that no element passes selects nothing. */
  lemma {:induction false} SelectNone<T(!new)>(s: seq<T>, p: T -> bool)
    requires forall x :: x in s ==> !p(x)
    ensures Select(s, p) == []
  {
    if s != [] {
      SelectNone(s[1..], p);
    }
  }

  /** Filtering a longer sequence: the new last element is kept exactly when it passes. */
  lemma {:induction false} SelectAppend<T(!new)>(s: seq<T>, x: T, p: T -> bool)
    ensures Select(s + [x], p) == Select(s, p) + (if p(x) then [x] else [])
  {
    if s == [] {
      assert [] + [x] == [x];
    } else {
      assert (s + [x])[1..] == s[1..] + [x];
      SelectAppend(s[1..], x, p);
    }
  }

  /** Two filters that agree on every element of `s` select the same subsequence. */
  lemma {:induction false} SelectCongruent<T(!new)>(s: seq<T>, p: T -> bool, q: T -> bool)
    requires forall x :: x in s ==> p(x) == q(x)
    ensures Select(s, p) == Select(s, q)
  {
    if s != [] {
      SelectCongruent(s[1..], p, q);
    }
  }

  /** Filtering twice is filtering once by the conjunction. */
  lemma {:induction false} SelectSelect<T(!new)>(s: seq<T>, p: T -> bool, q: T -> bool, pq: T -> bool)
    requires forall x :: pq(x) == (p(x) && q(x))
    ensures Select(Select(s, p), q) == Select(s, pq)
  {
    if s != [] {
      SelectSelect(s[1..], p, q, pq);
    }
  }

  /** A second filter that implies the first makes the first redundant. */
  lemma {:induction false} SelectRedundant<T(!new)>(s: seq<T>, p: T -> bool, q: T -> bool)
    requires forall x :: x in s && q(x) ==> p(x)
    ensures Select(Select(s, p), q) == Select(s, q)
  {
    if s != [] {
      SelectRedundant(s[1..], p, q);
    }
  }

  /** Replacing an element that the filter rejects by another that it rejects
      leaves the selection unchanged. */
  lemma {:induction false} SelectUpdateRejected<T(!new)>(s: seq<T>, i: nat, x: T, p: T -> bool)
    requires i < |s| && !p(s[i]) && !p(x)
    ensures Select(s[i := x], p) == Select(s, p)
  {
    if i > 0 {
      assert s[i := x][1..] == s[1..][i - 1 := x];
      SelectUpdateRejected(s[1..], i - 1, x, p);
    }
  }

  /** A subsequence of an ordered sequence is ordered. */
  lemma {:induction false} SelectOrdered<T(!new)>(s: seq<T>, p: T -> bool, rel: (T, T) -> bool)
    requires Ordered(s, rel)
    ensures Ordered(Select(s, p), rel)
  {
    if s != [] {
      SelectOrdered(s[1..], p, rel);
      var rest := Select(s[1..], p);
      if p(s[0]) {
        forall i, j | 0 <= i < j < |[s[0]] + rest|
          ensures rel(([s[0]] + rest)[i], ([s[0]] + rest)[j])
        {
          if i == 0 {
            assert rest[j - 1] in s[1..];
          }
        }
      }
    }
  }

  /** Appending an element that follows every present one keeps the order. */
  lemma OrderedAppend<T>(s: seq<T>, x: T, rel: (T, T) -> bool)
    requires Ordered(s, rel)
    requires forall i :: 0 <= i < |s| ==> rel(s[i], x)
    ensures Ordered(s + [x], rel)
  {
    forall i, j | 0 <= i < j < |s + [x]| ensures rel((s + [x])[i], (s + [x])[j]) {
      if j == |s| {
        assert (s + [x])[j] == x;
      }
    }
  }

  /** Replacing an element by one that relates to its neighbours in the same way keeps the order. */
  lemma OrderedUpdate<T>(s: seq<T>, i: nat, x: T, rel: (T, T) -> bool)
    requires Ordered(s, rel) && i < |s|
    requires forall j :: 0 <= j < i ==> rel(s[j], x)
    requires forall j :: i < j < |s| ==> rel(x, s[j])
    ensures Ordered(s[i := x], rel)
  {
  }

  /** The position of the first element satisfying `p`, if any. */
  function IndexOf<T(!new)>(s: seq<T>, p: T -> bool): (r: Option<nat>)
    ensures r.Some? ==> r.value < |s| && p(s[r.value]) && forall j :: 0 <= j < r.value ==> !p(s[j])
    ensures r.None? <==> forall x :: x in s ==> !p(x)
  {
    if s == [] then None
    else if p(s[0]) then Some(0)
    else match IndexOf(s[1..], p)
      case None => None
      case Some(k) => Some(k + 1)
  }

  /** Appending does not move the first match when there already is one. */
  lemma {:induction false} IndexOfAppend<T(!new)>(s: seq<T>, x: T, p: T -> bool)
    requires IndexOf(s, p).Some?
    ensures IndexOf(s + [x], p) == IndexOf(s, p)
  {
    if !p(s[0]) {
      assert (s + [x])[1..] == s[1..] + [x];
      IndexOfAppend(s[1..], x, p);
    }
  }

  /** Replacing an element by one the predicate treats alike does not move the first match. */
  lemma {:induction false} IndexOfUpdate<T(!new)>(s: seq<T>, i: nat, x: T, p: T -> bool)
    requires i < |s| && p(x) == p(s[i])
    ensures IndexOf(s[i := x], p) == IndexOf(s, p)
  {
    if i > 0 && !p(s[0]) {
      assert s[i := x][1..] == s[1..][i - 1 := x];
      IndexOfUpdate(s[1..], i - 1, x, p);
    }
  }

  /** At most the first `n` elements: a LIMIT clause. */
  function Take<T>(s: seq<T>, n: nat): (r: seq<T>)
    ensures |r| == if |s| < n then |s| else n
    ensures forall i :: 0 <= i < |r| ==> r[i] == s[i]
    ensures multiset(r) <= multiset(s)
  {
    if |s| < n then s else assert s == s[..n] + s[n..]; s[..n]
  }

  /** A prefix of an ordered sequence is ordered, and holds the first n elements. */
  lemma TakeOrdered<T>(s: seq<T>, n: nat, rel: (T, T) -> bool)
    requires Ordered(s, rel)
    ensures Ordered(Take(s, n), rel)
    ensures forall i :: 0 <= i < |s| && i < n ==> s[i] in Take(s, n)
  {
    var r := Take(s, n);
    forall i, j | 0 <= i < j < |r| ensures rel(r[i], r[j]) {
      assert r[i] == s[i] && r[j] == s[j];
    }
    forall i | 0 <= i < |s| && i < n ensures s[i] in r {
      assert r[i] == s[i];
    }
  }

  /** `le` is total and transitive: a key comparison with possible ties. */
  ghost predicate TotalPreorder<T(!new)>(le: (T, T) -> bool) {
    && (forall a, b :: le(a, b) || le(b, a))
    && (forall a, b, c :: le(a, b) && le(b, c) ==> le(a, c))
  }

  /** Inserts `x` into an ordered sequence, after every element it does not precede. */
  function Insert<T(!new)>(x: T, s: seq<T>, le: (T, T) -> bool): (r: seq<T>)
    requires TotalPreorder(le) && Ordered(s, le)
    ensures multiset(r) == multiset(s) + multiset{x}
    ensures Ordered(r, le)
  {
    if s == [] then [x]
    else if le(x, s[0]) then [x] + s
    else
      var rest := Insert(x, s[1..], le);
      assert s == [s[0]] + s[1..];
      assert forall y :: y in rest ==> le(s[0], y) by {
        forall y | y in rest ensures le(s[0], y) {
          assert y in multiset(rest);
          if y != x {
            assert y in multiset(s[1..]);
          }
        }
      }
      [s[0]] + rest
  }

  /** An ordering of `s` by `le`; elements that compare equal keep no promised order. */
  function SortBy<T(!new)>(s: seq<T>, le: (T, T) -> bool): (r: seq<T>)
    requires TotalPreorder(le)
    ensures multiset(r) == multiset(s)
    ensures Ordered(r, le)
  {
    if s == [] then []
    else
      assert s == [s[0]] + s[1..];
      Insert(s[0], SortBy(s[1..], le), le)
  }

  /** Sorting keeps exactly the elements it was given. */
  lemma SortByMembers<T(!new)>(s: seq<T>, le: (T, T) -> bool)
    requires TotalPreorder(le)
    ensures |SortBy(s, le)| == |s|
    ensures forall x :: x in SortBy(s, le) <==> x in s
  {
    var r := SortBy(s, le);
    assert |r| == |multiset(r)| == |multiset(s)| == |s|;
    forall x ensures x in r <==> x in s {
      assert x in r <==> x in multiset(r);
      assert x in s <==> x in multiset(s);
    }
  }

  /** Lexicographic comparison of strings by code point. */
  predicate LexLe(a: string, b: string) {
    if a == [] then true
    else if b == [] then false
    else if a[0] != b[0] then a[0] < b[0]
    else LexLe(a[1..], b[1..])
  }

  lemma {:induction false} LexLeTotal(a: string, b: string)
    ensures LexLe(a, b) || LexLe(b, a)
  {
    if a != [] && b != [] && a[0] == b[0] {
      LexLeTotal(a[1..], b[1..]);
    }
  }

  lemma {:induction false} LexLeTransitive(a: string, b: string, c: string)
    requires LexLe(a, b) && LexLe(b, c)
    ensures LexLe(a, c)
  {
    if a != [] && b != [] && c != [] && a[0] == b[0] && b[0] == c[0] {
      LexLeTransitive(a[1..], b[1..], c[1..]);
    }
  }
}
