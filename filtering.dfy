/** The `iter().filter(p).collect()` chain both resolvers and `vec_contains`
    are built on, with the facts that pin its result down: it keeps exactly
    the elements satisfying `p`, each as often as the input holds it, in input
    order. */
module Filtering {

  /** `r` can be obtained from `s` by deleting elements. */
  ghost predicate IsSubsequence<T>(r: seq<T>, s: seq<T>)
    decreases |s|
  {
    || r == []
    || (s != [] && ((r[0] == s[0] && IsSubsequence(r[1..], s[1..])) || IsSubsequence(r, s[1..])))
  }

  /** `iter().filter(p).collect()`. */
  function Filter<T>(p: T -> bool, s: seq<T>): (r: seq<T>)
    ensures |r| <= |s|
    ensures IsSubsequence(r, s) && multiset(r) <= multiset(s)
    ensures forall x :: x in r ==> p(x)
    ensures forall i :: 0 <= i < |s| && p(s[i]) ==> multiset(r)[s[i]] == multiset(s)[s[i]]
  {
    if s == [] then []
    else
      var rest := Filter(p, s[1..]);
      assert s == [s[0]] + s[1..];
      if p(s[0]) then
        assert ([s[0]] + rest)[1..] == rest;
        [s[0]] + rest
      else
        rest
  }

  /** How many elements satisfy `p`, counted independently of `Filter`. */
  function Count<T>(p: T -> bool, s: seq<T>): nat {
    if s == [] then 0 else (if p(s[0]) then 1 else 0) + Count(p, s[1..])
  }

  lemma {:induction false} FilterLength<T>(p: T -> bool, s: seq<T>)
    ensures |Filter(p, s)| == Count(p, s)
  {
    if s != [] {
      FilterLength(p, s[1..]);
    }
  }

  /** Filtering distributes over concatenation: the order of the input is
      the order of the output. */
  lemma {:induction false} FilterAppend<T>(p: T -> bool, a: seq<T>, b: seq<T>)
    ensures Filter(p, a + b) == Filter(p, a) + Filter(p, b)
  {
    if a == [] {
      assert a + b == b;
    } else {
      assert (a + b)[0] == a[0] && (a + b)[1..] == a[1..] + b;
      FilterAppend(p, a[1..], b);
    }
  }

  /** An element `s[i]` that is the only one satisfying `p` is all the filter
      keeps. */
  lemma {:induction false} FilterSole<T>(p: T -> bool, s: seq<T>, i: int)
    requires 0 <= i < |s| && p(s[i])
    requires forall j :: 0 <= j < |s| && j != i ==> !p(s[j])
    ensures Filter(p, s) == [s[i]]
  {
    if i == 0 {
      FilterNone(p, s[1..]);
    } else {
      assert !p(s[0]);
      FilterSole(p, s[1..], i - 1);
    }
  }

  /** Nothing satisfying `p`: the filter is empty. */
  lemma {:induction false} FilterNone<T>(p: T -> bool, s: seq<T>)
    requires forall j :: 0 <= j < |s| ==> !p(s[j])
    ensures Filter(p, s) == []
  {
    if s != [] {
      FilterNone(p, s[1..]);
    }
  }

  /** A filter of length one comes from exactly one element satisfying `p`. */
  lemma {:induction false} FilterSingleton<T>(p: T -> bool, s: seq<T>)
    requires |Filter(p, s)| == 1
    ensures exists i :: 0 <= i < |s| && s[i] == Filter(p, s)[0] && p(s[i])
                        && forall j :: 0 <= j < |s| && j != i ==> !p(s[j])
  {
    if p(s[0]) {
      assert Filter(p, s[1..]) == [];
      forall j | 0 < j < |s| ensures !p(s[j]) {
        assert s[j] == s[1..][j - 1];
      }
      assert 0 <= 0 < |s| && s[0] == Filter(p, s)[0];
    } else {
      FilterSingleton(p, s[1..]);
      var i :| 0 <= i < |s[1..]| && s[1..][i] == Filter(p, s[1..])[0] && p(s[1..][i])
               && forall j :: 0 <= j < |s[1..]| && j != i ==> !p(s[1..][j]);
      forall j | 0 <= j < |s| && j != i + 1 ensures !p(s[j]) {
        if j > 0 {
          assert s[j] == s[1..][j - 1];
        }
      }
    }
  }

  /** Every element satisfies `p`: the filter keeps the input as it is. */
  lemma {:induction false} FilterAll<T>(p: T -> bool, s: seq<T>)
    requires forall j :: 0 <= j < |s| ==> p(s[j])
    ensures Filter(p, s) == s
  {
    if s != [] {
      FilterAll(p, s[1..]);
      assert s == [s[0]] + s[1..];
    }
  }

  /** Filtering commutes with a projection: when `q` holds of an element
      exactly when `p` holds of its image under `f`, projecting what `q` keeps
      is filtering the projected sequence by `p`. */
  lemma {:induction false} FilterProject<T, U>(f: T -> U, q: T -> bool, p: U -> bool, s: seq<T>)
    requires forall x :: q(x) == p(f(x))
    ensures Map(f, Filter(q, s)) == Filter(p, Map(f, s))
  {
    if s != [] {
      FilterProject(f, q, p, s[1..]);
      assert Map(f, s)[1..] == Map(f, s[1..]);
      assert Map(f, s)[0] == f(s[0]);
      if q(s[0]) {
        assert Map(f, [s[0]] + Filter(q, s[1..]))[1..] == Map(f, Filter(q, s[1..]));
      }
    }
  }

  /** `iter().map(f).collect()`. */
  function Map<T, U>(f: T -> U, s: seq<T>): (r: seq<U>)
    ensures |r| == |s|
    ensures forall i :: 0 <= i < |s| ==> r[i] == f(s[i])
  {
    if s == [] then [] else [f(s[0])] + Map(f, s[1..])
  }

  lemma SubsequenceMultiset<T>(r: seq<T>, s: seq<T>)
    requires IsSubsequence(r, s)
    ensures multiset(r) <= multiset(s)
    decreases |s|
  {
    if r != [] {
      assert s == [s[0]] + s[1..];
      if r[0] == s[0] && IsSubsequence(r[1..], s[1..]) {
        SubsequenceMultiset(r[1..], s[1..]);
        assert r == [r[0]] + r[1..];
      } else {
        SubsequenceMultiset(r, s[1..]);
      }
    }
  }

  /** The contract of `Filter` determines its result: any subsequence of `s`
      that holds only elements satisfying `p`, each satisfying one as often as
      `s` does, is `Filter(p, s)`. */
  lemma {:induction false} FilterCharacterised<T>(p: T -> bool, s: seq<T>, r: seq<T>)
    requires IsSubsequence(r, s)
    requires forall x :: x in r ==> p(x)
    requires forall i :: 0 <= i < |s| && p(s[i]) ==> multiset(r)[s[i]] == multiset(s)[s[i]]
    ensures r == Filter(p, s)
  {
    if s != [] {
      assert s == [s[0]] + s[1..];
      if p(s[0]) {
        assert multiset(r)[s[0]] == multiset(s)[s[0]] > 0;
        assert r != [];
        if r[0] == s[0] && IsSubsequence(r[1..], s[1..]) {
          assert r == [r[0]] + r[1..];
          forall x | x in r[1..] ensures p(x) {
            assert x in r;
          }
          FilterCharacterised(p, s[1..], r[1..]);
        } else {
          SubsequenceMultiset(r, s[1..]);
          assert false;
        }
      } else {
        assert IsSubsequence(r, s[1..]);
        FilterCharacterised(p, s[1..], r);
      }
    }
  }
}
