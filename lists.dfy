/** `Array.prototype.filter` and the order-preserving sublist relation it establishes. */
module Lists {

  /** The elements of `s` that satisfy `f`, in their original order. */
  function Filter<T>(s: seq<T>, f: T -> bool): (r: seq<T>)
    ensures |r| <= |s|
    ensures forall i :: 0 <= i < |r| ==> r[i] in s && f(r[i])
    ensures forall i :: 0 <= i < |s| && f(s[i]) ==> s[i] in r
    decreases |s|
  {
    if s == [] then []
    else
      var rest := Filter(s[1..], f);
      assert forall i :: 1 <= i < |s| ==> s[i] == s[1..][i - 1];
      if f(s[0]) then [s[0]] + rest else rest
  }

  /** `Array.prototype.map`. */
  function Map<T, U>(s: seq<T>, g: T -> U): (r: seq<U>)
    ensures |r| == |s| && forall i :: 0 <= i < |s| ==> r[i] == g(s[i])
  {
    seq(|s|, i requires 0 <= i < |s| => g(s[i]))
  }

  lemma MapAppend<T, U>(a: seq<T>, b: seq<T>, g: T -> U)
    ensures Map(a + b, g) == Map(a, g) + Map(b, g)
  {
    assert forall i :: 0 <= i < |a + b| ==> Map(a + b, g)[i] == (Map(a, g) + Map(b, g))[i] by {
      forall i | 0 <= i < |a + b| ensures Map(a + b, g)[i] == (Map(a, g) + Map(b, g))[i] {
        if i >= |a| { assert (a + b)[i] == b[i - |a|]; }
      }
    }
  }

  /** `a` can be obtained from `b` by deleting elements. */
  predicate IsSubsequence<T(==)>(a: seq<T>, b: seq<T>)
    decreases |b|
  {
    if a == [] then true
    else if b == [] then false
    else if a[0] == b[0] then IsSubsequence(a[1..], b[1..])
    else IsSubsequence(a, b[1..])
  }

  lemma {:induction false} FilterIsSubsequence<T>(s: seq<T>, f: T -> bool)
    ensures IsSubsequence(Filter(s, f), s)
    decreases |s|
  {
    if s != [] {
      FilterIsSubsequence(s[1..], f);
      var rest := Filter(s[1..], f);
      if f(s[0]) {
        assert ([s[0]] + rest)[1..] == rest;
      } else {
        SkipHead(rest, s);
      }
    }
  }

  /** A subsequence of the tail is a subsequence of the whole. */
  lemma {:induction false} SkipHead<T>(a: seq<T>, b: seq<T>)
    requires b != [] && IsSubsequence(a, b[1..])
    ensures IsSubsequence(a, b)
    decreases |b|, 0
  {
    if a != [] && a[0] == b[0] {
      TailOfSubsequence(a, b[1..]);
    }
  }

  /** Dropping the head of a non-empty subsequence keeps it a subsequence. */
  lemma {:induction false} TailOfSubsequence<T>(a: seq<T>, c: seq<T>)
    requires a != [] && IsSubsequence(a, c)
    ensures IsSubsequence(a[1..], c)
    decreases |c|, 1
  {
    assert c != [];
    if a[0] != c[0] {
      TailOfSubsequence(a, c[1..]);
    }
    SkipHead(a[1..], c);
  }

  /** Filtering distributes over concatenation. */
  lemma {:induction false} FilterAppend<T>(a: seq<T>, b: seq<T>, f: T -> bool)
    ensures Filter(a + b, f) == Filter(a, f) + Filter(b, f)
    decreases |a|
  {
    if a == [] {
      assert a + b == b;
    } else {
      assert (a + b)[0] == a[0] && (a + b)[1..] == a[1..] + b;
      FilterAppend(a[1..], b, f);
    }
  }

  /** A non-empty filter result means some element passes the test. */
  lemma FilterNonEmpty<T>(s: seq<T>, f: T -> bool)
    requires |Filter(s, f)| > 0
    ensures exists i :: 0 <= i < |s| && f(s[i])
  {
    var x := Filter(s, f)[0];
    assert x in s && f(x);
    var i :| 0 <= i < |s| && s[i] == x;
    assert f(s[i]);
  }

  /** A sequence every element of which passes the test is its own filter. */
  lemma {:induction false} FilterAll<T>(s: seq<T>, f: T -> bool)
    requires forall i :: 0 <= i < |s| ==> f(s[i])
    ensures Filter(s, f) == s
    decreases |s|
  {
    if s != [] {
      assert f(s[0]);
      FilterAll(s[1..], f);
      assert [s[0]] + s[1..] == s;
    }
  }
}
