/** List operations the two programs use on yt-dlp's format list: a list
    comprehension with a filter, the same loop written with `append`, and slicing
    a prefix (`xs[:n]`). */
module Sequences {

  /** `[f(x) for x in s if keep(x)]`, written as one `append` per kept element in input order. */
  function Select<T, U>(s: seq<T>, keep: T -> bool, f: T -> U): (r: seq<U>)
    ensures |r| <= |s|
  {
    if s == [] then []
    else Select(s[..|s| - 1], keep, f) + (if keep(s[|s| - 1]) then [f(s[|s| - 1])] else [])
  }

  /** `[x for x in s if keep(x)]` */
  function Filter<T>(s: seq<T>, keep: T -> bool): (r: seq<T>)
    ensures |r| <= |s|
    ensures forall j :: 0 <= j < |r| ==> keep(r[j])
  {
    if s == [] then []
    else Filter(s[..|s| - 1], keep) + (if keep(s[|s| - 1]) then [s[|s| - 1]] else [])
  }

  /** The indices of the kept elements of `s`, in increasing order. */
  function Positions<T>(s: seq<T>, keep: T -> bool): (p: seq<nat>)
    ensures |p| <= |s|
    ensures forall j :: 0 <= j < |p| ==> p[j] < |s| && keep(s[p[j]])
    ensures forall j, j' :: 0 <= j < j' < |p| ==> p[j] < p[j']
    ensures forall i :: 0 <= i < |s| && keep(s[i]) ==> i in p
  {
    if s == [] then []
    else Positions(s[..|s| - 1], keep) + (if keep(s[|s| - 1]) then [|s| - 1] else [])
  }

  /** `s[:n]` */
  function Take<T>(s: seq<T>, n: nat): (r: seq<T>)
    ensures |r| == if |s| <= n then |s| else n
    ensures r <= s
  {
    if |s| <= n then s else s[..n]
  }

  /** The predicate that holds where both `p` and `q` do. */
  function Both<T>(p: T -> bool, q: T -> bool): T -> bool
  {
    x => p(x) && q(x)
  }

  /** Each selected element is `f` of the input element at the matching position, so
      the selection keeps exactly the kept elements, once each, in input order. */
  lemma {:induction false} SelectAt<T, U>(s: seq<T>, keep: T -> bool, f: T -> U)
    ensures |Select(s, keep, f)| == |Positions(s, keep)|
    ensures forall j :: 0 <= j < |Positions(s, keep)| ==>
      Select(s, keep, f)[j] == f(s[Positions(s, keep)[j]])
  {
    if s != [] {
      var init := s[..|s| - 1];
      SelectAt(init, keep, f);
      var p := Positions(s, keep);
      forall j | 0 <= j < |p|
        ensures Select(s, keep, f)[j] == f(s[p[j]])
      {
        if j < |Positions(init, keep)| {
          assert s[p[j]] == init[p[j]];
        }
      }
    }
  }

  /** The filtered list holds exactly the kept elements, once each, in input order. */
  lemma {:induction false} FilterAt<T>(s: seq<T>, keep: T -> bool)
    ensures |Filter(s, keep)| == |Positions(s, keep)|
    ensures forall j :: 0 <= j < |Positions(s, keep)| ==>
      Filter(s, keep)[j] == s[Positions(s, keep)[j]]
  {
    if s != [] {
      var init := s[..|s| - 1];
      FilterAt(init, keep);
      var p := Positions(s, keep);
      forall j | 0 <= j < |p|
        ensures Filter(s, keep)[j] == s[p[j]]
      {
        if j < |Positions(init, keep)| {
          assert s[p[j]] == init[p[j]];
        }
      }
    }
  }

  /** Selecting from a filtered list is one selection under both conditions. */
  lemma {:induction false} SelectOfFilter<T, U>(s: seq<T>, p: T -> bool, q: T -> bool, f: T -> U)
    ensures Select(Filter(s, p), q, f) == Select(s, Both(p, q), f)
  {
    if s != [] {
      var init, last := s[..|s| - 1], s[|s| - 1];
      SelectOfFilter(init, p, q, f);
      var fi := Filter(init, p);
      if p(last) {
        var fs := fi + [last];
        assert Filter(s, p) == fs;
        assert fs[..|fs| - 1] == fi;
      } else {
        assert Filter(s, p) == fi;
      }
    }
  }

  /** A filter that keeps every element returns the list unchanged. */
  lemma {:induction false} FilterKeepsAll<T>(s: seq<T>, keep: T -> bool)
    requires forall i :: 0 <= i < |s| ==> keep(s[i])
    ensures Filter(s, keep) == s
  {
    if s != [] {
      FilterKeepsAll(s[..|s| - 1], keep);
      assert s[..|s| - 1] + [s[|s| - 1]] == s;
    }
  }

  /** A list has at least as many kept positions as any of its suffixes. */
  lemma {:induction false} PositionsOfSuffix<T>(s: seq<T>, n: nat, keep: T -> bool)
    requires n <= |s|
    ensures |Positions(s, keep)| >= |Positions(s[n..], keep)|
    decreases |s|
  {
    if n < |s| {
      var init := s[..|s| - 1];
      assert init[n..] == s[n..][..|s[n..]| - 1];
      PositionsOfSuffix(init, n, keep);
    } else {
      assert s[n..] == [];
    }
  }

  /** When every element is kept, every index is a kept position. */
  lemma {:induction false} AllKept<T>(s: seq<T>, keep: T -> bool)
    requires forall i :: 0 <= i < |s| ==> keep(s[i])
    ensures |Positions(s, keep)| == |s|
  {
    if s != [] {
      AllKept(s[..|s| - 1], keep);
    }
  }

  /** A selection that keeps every element maps `f` over the whole list. */
  lemma {:induction false} SelectKeepsAll<T, U>(s: seq<T>, keep: T -> bool, f: T -> U)
    requires forall i :: 0 <= i < |s| ==> keep(s[i])
    ensures |Select(s, keep, f)| == |s|
    ensures forall j :: 0 <= j < |s| ==> Select(s, keep, f)[j] == f(s[j])
  {
    if s != [] {
      SelectKeepsAll(s[..|s| - 1], keep, f);
    }
  }
}
