/** Small sequence helpers shared by the model: an optional value, an
    order-preserving filter, a pointwise map and the subsequence relation. */
module Util {

  datatype Option<+T> = None | Some(value: T)

  /** `a` can be obtained from `b` by deleting elements, keeping the order. */
  ghost predicate IsSubseq<T>(a: seq<T>, b: seq<T>)
    decreases |b|
  {
    |a| == 0 ||
    (|b| > 0 && ((a[0] == b[0] && IsSubseq(a[1..], b[1..])) || IsSubseq(a, b[1..])))
  }

  /** The elements of `s` satisfying `keep`, in their original order. */
  function Filter<T(!new)>(s: seq<T>, keep: T -> bool): (r: seq<T>)
    ensures |r| <= |s|
    ensures forall x :: x in r <==> x in s && keep(x)
    ensures IsSubseq(r, s)
    decreases |s|
  {
    if |s| == 0 then []
    else
      var rest := Filter(s[1..], keep);
      assert IsSubseq(rest, s[1..]);
      if keep(s[0]) then
        assert ([s[0]] + rest)[1..] == rest;
        [s[0]] + rest
      else
        rest
  }

  function Map<T, U>(s: seq<T>, f: T -> U): (r: seq<U>)
    ensures |r| == |s|
    ensures forall i :: 0 <= i < |s| ==> r[i] == f(s[i])
  {
    seq(|s|, i requires 0 <= i < |s| => f(s[i]))
  }

  /** `idx` lists where the elements of `pool` stand in `s`: in increasing
      order, and covering every index of an element `keep` accepts. */
  ghost predicate IndexMap<T>(s: seq<T>, keep: T -> bool, pool: seq<T>, idx: seq<nat>) {
    && |idx| == |pool|
    && (forall m :: 0 <= m < |idx| ==> idx[m] < |s| && pool[m] == s[idx[m]])
    && (forall m, n :: 0 <= m < n < |idx| ==> idx[m] < idx[n])
    && (forall j :: 0 <= j < |s| && keep(s[j]) ==> j in idx)
  }

  /** Where the kept elements came from: the `m`-th element of `Filter(s, keep)`
      is the element of `s` at `idx[m]`, the indices increase, and every
      index of a kept element occurs. */
  lemma {:induction false} FilterIndices<T(!new)>(s: seq<T>, keep: T -> bool) returns (idx: seq<nat>)
    ensures IndexMap(s, keep, Filter(s, keep), idx)
    decreases |s|
  {
    if |s| == 0 {
      idx := [];
    } else {
      var rest := FilterIndices(s[1..], keep);
      FilterUnfold(s, keep);
      idx := ConsIndices(s, keep, Filter(s[1..], keep), rest);
    }
  }

  /** One step of `FilterIndices`: the index map of the tail, shifted by one,
      behind a 0 when the head is kept. */
  lemma ConsIndices<T>(s: seq<T>, keep: T -> bool, kept: seq<T>, rest: seq<nat>) returns (idx: seq<nat>)
    requires |s| > 0
    requires IndexMap(s[1..], keep, kept, rest)
    ensures IndexMap(s, keep, if keep(s[0]) then [s[0]] + kept else kept, idx)
  {
    var shifted := ShiftedIndices(s, keep, kept, rest);
    if keep(s[0]) {
      idx := [0] + shifted;
      forall m | 1 <= m < |idx|
        ensures idx[m] == shifted[m - 1] && ([s[0]] + kept)[m] == kept[m - 1]
      {
      }
    } else {
      idx := shifted;
    }
  }

  /** The index map of the tail, shifted by one, places the tail's kept
      elements in `s`, in increasing order and beyond 0. */
  lemma ShiftedIndices<T>(s: seq<T>, keep: T -> bool, kept: seq<T>, rest: seq<nat>) returns (shifted: seq<nat>)
    requires |s| > 0
    requires IndexMap(s[1..], keep, kept, rest)
    ensures |shifted| == |kept|
    ensures forall m :: 0 <= m < |shifted| ==> 0 < shifted[m] < |s| && kept[m] == s[shifted[m]]
    ensures forall m, n :: 0 <= m < n < |shifted| ==> shifted[m] < shifted[n]
    ensures forall j :: 0 < j < |s| && keep(s[j]) ==> j in shifted
  {
    var tail := s[1..];
    shifted := seq(|rest|, m requires 0 <= m < |rest| => rest[m] + 1);
    forall m | 0 <= m < |shifted|
      ensures 0 < shifted[m] < |s| && kept[m] == s[shifted[m]]
    {
      assert tail[rest[m]] == s[shifted[m]];
    }
    forall j | 0 < j < |s| && keep(s[j])
      ensures j in shifted
    {
      assert s[j] == tail[j - 1];
      var m :| 0 <= m < |rest| && rest[m] == j - 1;
      assert shifted[m] == j;
    }
  }

  lemma FilterUnfold<T(!new)>(s: seq<T>, keep: T -> bool)
    requires |s| > 0
    ensures Filter(s, keep) == if keep(s[0]) then [s[0]] + Filter(s[1..], keep) else Filter(s[1..], keep)
  {
  }

  /** A filter leaves something exactly when some element passes it. */
  lemma FilterNonEmpty<T(!new)>(s: seq<T>, keep: T -> bool)
    ensures |Filter(s, keep)| > 0 <==> exists i :: 0 <= i < |s| && keep(s[i])
  {
    if exists i :: 0 <= i < |s| && keep(s[i]) {
      var i :| 0 <= i < |s| && keep(s[i]);
      assert s[i] in Filter(s, keep);
    }
    if |Filter(s, keep)| > 0 {
      var x := Filter(s, keep)[0];
      assert x in s;
    }
  }

  /** Filtering with a predicate every element meets keeps the whole sequence. */
  lemma {:induction false} FilterAll<T(!new)>(s: seq<T>, keep: T -> bool)
    requires forall x :: keep(x)
    ensures Filter(s, keep) == s
    decreases |s|
  {
    if |s| > 0 {
      FilterAll(s[1..], keep);
      assert [s[0]] + s[1..] == s;
    }
  }

  /** Mapping both sides keeps a subsequence a subsequence. */
  lemma {:induction false} MapKeepsSubseq<T, U>(a: seq<T>, b: seq<T>, f: T -> U)
    requires IsSubseq(a, b)
    ensures IsSubseq(Map(a, f), Map(b, f))
    decreases |b|
  {
    if |a| > 0 {
      assert Map(b, f)[1..] == Map(b[1..], f);
      if a[0] == b[0] && IsSubseq(a[1..], b[1..]) {
        MapKeepsSubseq(a[1..], b[1..], f);
        assert Map(a, f)[1..] == Map(a[1..], f);
      } else {
        MapKeepsSubseq(a, b[1..], f);
      }
    }
  }

  /** Each element but the last is related to the one after it. */
  ghost predicate Chain<T>(s: seq<T>, related: (T, T) -> bool) {
    forall k :: 0 <= k < |s| - 1 ==> related(s[k], s[k + 1])
  }

  /** A chain stays a chain when an element related to its last one is appended. */
  lemma ChainExtends<T>(s: seq<T>, x: T, related: (T, T) -> bool)
    requires |s| > 0 && Chain(s, related) && related(s[|s| - 1], x)
    ensures Chain(s + [x], related)
  {
    var longer := s + [x];
    forall k | 0 <= k < |longer| - 1
      ensures related(longer[k], longer[k + 1])
    {
      assert longer[k] == s[k];
      if k + 1 < |s| {
        assert longer[k + 1] == s[k + 1];
      }
    }
  }
}
