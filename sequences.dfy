/** Order-preserving selection over sequences: the `Array.prototype.filter`
    that the user list applies both to search and to delete. */
module Sequences {

  /** The elements of `s` for which `keep` holds, in their original order. */
  function Select<T(!new)>(s: seq<T>, keep: T -> bool): (r: seq<T>)
    ensures |r| <= |s|
    ensures forall i :: 0 <= i < |r| ==> keep(r[i])
  {
    if s == [] then []
    else (if keep(s[0]) then [s[0]] else []) + Select(s[1..], keep)
  }

  /** An element is selected exactly when it is in `s` and passes the test. */
  lemma {:induction false} SelectMembership<T(!new)>(s: seq<T>, keep: T -> bool, x: T)
    ensures x in Select(s, keep) <==> x in s && keep(x)
  {
    if s != [] {
      SelectMembership(s[1..], keep, x);
      assert Select(s, keep) == (if keep(s[0]) then [s[0]] else []) + Select(s[1..], keep);
      assert x in s <==> x == s[0] || x in s[1..];
    }
  }

  /** `a` can be obtained from `b` by deleting elements, without reordering. */
  ghost predicate IsSubsequence<T>(a: seq<T>, b: seq<T>)
    decreases |b|
  {
    if a == [] then true
    else if b == [] then false
    else (a[0] == b[0] && IsSubsequence(a[1..], b[1..])) || IsSubsequence(a, b[1..])
  }

  lemma {:induction false} SubsequenceReflexive<T>(s: seq<T>)
    ensures IsSubsequence(s, s)
  {
    if s != [] {
      SubsequenceReflexive(s[1..]);
    }
  }

  /** A subsequence holds only elements of the sequence it is taken from. */
  lemma {:induction false} SubsequenceElements<T>(a: seq<T>, b: seq<T>)
    requires IsSubsequence(a, b)
    ensures forall x :: x in a ==> x in b
    decreases |b|
  {
    if a != [] {
      if a[0] == b[0] && IsSubsequence(a[1..], b[1..]) {
        SubsequenceElements(a[1..], b[1..]);
        assert forall x :: x in a ==> x == a[0] || x in a[1..];
      } else {
        SubsequenceElements(a, b[1..]);
      }
    }
  }

  /** Selection keeps the order of what it keeps. */
  lemma {:induction false} SelectIsSubsequence<T(!new)>(s: seq<T>, keep: T -> bool)
    ensures IsSubsequence(Select(s, keep), s)
  {
    if s != [] {
      SelectIsSubsequence(s[1..], keep);
      assert Select(s, keep) == (if keep(s[0]) then [s[0]] else []) + Select(s[1..], keep);
      if keep(s[0]) {
        assert Select(s, keep)[1..] == Select(s[1..], keep);
      } else {
        assert Select(s, keep) == Select(s[1..], keep);
      }
    }
  }

  /** Selection keeps every copy of a kept element and no copy of a dropped one. */
  lemma {:induction false} SelectCount<T(!new)>(s: seq<T>, keep: T -> bool, x: T)
    ensures multiset(Select(s, keep))[x] == if keep(x) then multiset(s)[x] else 0
  {
    if s != [] {
      SelectCount(s[1..], keep, x);
      assert s == [s[0]] + s[1..];
      assert multiset(s) == multiset([s[0]]) + multiset(s[1..]);
    }
  }

  /** When every element is kept, selection changes nothing. */
  lemma {:induction false} SelectKeepsAll<T(!new)>(s: seq<T>, keep: T -> bool)
    requires forall i :: 0 <= i < |s| ==> keep(s[i])
    ensures Select(s, keep) == s
  {
    if s != [] {
      assert forall i :: 0 <= i < |s[1..]| ==> s[1..][i] == s[i + 1];
      SelectKeepsAll(s[1..], keep);
      assert s == [s[0]] + s[1..];
    }
  }

  /** Two tests that agree on every element of `s` select the same elements. */
  lemma {:induction false} SelectCongruent<T(!new)>(s: seq<T>, p: T -> bool, q: T -> bool)
    requires forall i :: 0 <= i < |s| ==> p(s[i]) == q(s[i])
    ensures Select(s, p) == Select(s, q)
  {
    if s != [] {
      assert forall i :: 0 <= i < |s[1..]| ==> s[1..][i] == s[i + 1];
      SelectCongruent(s[1..], p, q);
    }
  }

  /** Selecting twice with the same test is the same as selecting once. */
  lemma SelectIdempotent<T(!new)>(s: seq<T>, keep: T -> bool)
    ensures Select(Select(s, keep), keep) == Select(s, keep)
  {
    SelectKeepsAll(Select(s, keep), keep);
  }

  /** Two selections can be applied in either order. */
  lemma {:induction false} SelectCommutes<T(!new)>(s: seq<T>, p: T -> bool, q: T -> bool)
    ensures Select(Select(s, p), q) == Select(Select(s, q), p)
  {
    if s != [] {
      SelectCommutes(s[1..], p, q);
      var h, t := s[0], s[1..];
      assert Select(s, p) == (if p(h) then [h] else []) + Select(t, p);
      assert Select(s, q) == (if q(h) then [h] else []) + Select(t, q);
      if p(h) {
        assert Select(s, p)[1..] == Select(t, p);
      } else {
        assert Select(s, p) == Select(t, p);
      }
      if q(h) {
        assert Select(s, q)[1..] == Select(t, q);
      } else {
        assert Select(s, q) == Select(t, q);
      }
    }
  }

  /** If exactly one position fails the test, selection removes exactly that position. */
  lemma {:induction false} SelectDropsOne<T(!new)>(s: seq<T>, keep: T -> bool, i: nat)
    requires i < |s| && !keep(s[i])
    requires forall j :: 0 <= j < |s| && j != i ==> keep(s[j])
    ensures Select(s, keep) == s[..i] + s[i + 1..]
  {
    if i == 0 {
      SelectDropsHead(s, keep);
    } else {
      var t := s[1..];
      forall j | 0 <= j < |t| && j != i - 1 ensures keep(t[j]) {
        assert t[j] == s[j + 1];
      }
      SelectDropsOne(t, keep, i - 1);
      assert keep(s[0]);
      calc {
        Select(s, keep);
        [s[0]] + Select(t, keep);
        [s[0]] + (t[..i - 1] + t[i..]);
        { assert s[..i] == [s[0]] + t[..i - 1]; }
        s[..i] + t[i..];
        { assert s[i + 1..] == t[i..]; }
        s[..i] + s[i + 1..];
      }
    }
  }

  lemma SelectDropsHead<T(!new)>(s: seq<T>, keep: T -> bool)
    requires s != [] && !keep(s[0])
    requires forall j :: 0 < j < |s| ==> keep(s[j])
    ensures Select(s, keep) == s[1..]
  {
    var t := s[1..];
    forall j | 0 <= j < |t| ensures keep(t[j]) {
      assert t[j] == s[j + 1];
    }
    SelectKeepsAll(t, keep);
  }
}
