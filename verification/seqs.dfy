/** Order-preserving selections from sequences, used to state that a filtered
    list keeps the order of the list it was filtered from. */
module Seqs {

  /** `xs` can be obtained from `ys` by deleting elements. */
  predicate IsSubsequence<T(==)>(xs: seq<T>, ys: seq<T>)
    decreases |ys|
  {
    |xs| == 0 || (|ys| > 0 && ((xs[0] == ys[0] && IsSubsequence(xs[1..], ys[1..])) || IsSubsequence(xs, ys[1..])))
  }

  /** Every element of a subsequence occurs in the sequence. */
  lemma {:induction false} SubsequenceMembers<T>(xs: seq<T>, ys: seq<T>)
    requires IsSubsequence(xs, ys)
    ensures forall u :: u in xs ==> u in ys
    decreases |ys|
  {
    if |xs| > 0 {
      if xs[0] == ys[0] && IsSubsequence(xs[1..], ys[1..]) {
        SubsequenceMembers(xs[1..], ys[1..]);
        forall u | u in xs ensures u in ys {
          if u != xs[0] {
            assert u in xs[1..];
            assert u in ys[1..];
          }
        }
      } else {
        SubsequenceMembers(xs, ys[1..]);
        assert forall u :: u in ys[1..] ==> u in ys;
      }
    }
  }

  /** A subsequence of a subsequence is a subsequence. */
  lemma {:induction false} SubsequenceTransitive<T>(xs: seq<T>, ys: seq<T>, zs: seq<T>)
    requires IsSubsequence(xs, ys) && IsSubsequence(ys, zs)
    ensures IsSubsequence(xs, zs)
    decreases |zs|
  {
    if |xs| > 0 {
      if IsSubsequence(ys, zs[1..]) {
        SubsequenceTransitive(xs, ys, zs[1..]);
      } else if xs[0] == ys[0] && IsSubsequence(xs[1..], ys[1..]) {
        SubsequenceTransitive(xs[1..], ys[1..], zs[1..]);
      } else {
        SubsequenceTransitive(xs, ys[1..], zs[1..]);
      }
    }
  }

  /** The first occurrence of each element not in `seen`, in order. */
  function Dedupe<T(==,!new)>(xs: seq<T>, seen: set<T>): (res: seq<T>)
    ensures forall i, j :: 0 <= i < j < |res| ==> res[i] != res[j]
    ensures forall u :: u in res <==> u in xs && u !in seen
    ensures IsSubsequence(res, xs)
  {
    if |xs| == 0 then []
    else if xs[0] in seen then
      var rest := Dedupe(xs[1..], seen);
      assert forall u :: u in xs <==> u == xs[0] || u in xs[1..];
      rest
    else
      var rest := Dedupe(xs[1..], seen + {xs[0]});
      assert forall u :: u in xs <==> u == xs[0] || u in xs[1..];
      assert ([xs[0]] + rest)[1..] == rest;
      [xs[0]] + rest
  }

  /** Removing duplicates from a list that has none changes nothing. */
  lemma {:induction false} DedupeDistinct<T(!new)>(xs: seq<T>, seen: set<T>)
    requires forall i, j :: 0 <= i < j < |xs| ==> xs[i] != xs[j]
    requires forall u :: u in xs ==> u !in seen
    ensures Dedupe(xs, seen) == xs
    decreases |xs|
  {
    if |xs| > 0 {
      assert forall u :: u in xs[1..] ==> u in xs && u != xs[0];
      DedupeDistinct(xs[1..], seen + {xs[0]});
    }
  }

  /** The number of occurrences of `u` in `xs`. */
  function Count<T(==,!new)>(xs: seq<T>, u: T): (n: nat)
    ensures n <= |xs|
    ensures n > 0 <==> u in xs
  {
    if |xs| == 0 then 0
    else
      assert forall v :: v in xs <==> v == xs[0] || v in xs[1..];
      (if xs[0] == u then 1 else 0) + Count(xs[1..], u)
  }

  /** In a list without repeats every element occurs at most once. */
  lemma {:induction false} DistinctCount<T(!new)>(xs: seq<T>, u: T)
    requires forall i, j :: 0 <= i < j < |xs| ==> xs[i] != xs[j]
    ensures Count(xs, u) <= 1
  {
    if |xs| > 0 {
      DistinctCount(xs[1..], u);
      if xs[0] == u {
        assert u !in xs[1..];
      }
    }
  }

  /** Counting distributes over concatenation. */
  lemma {:induction false} CountAppend<T(!new)>(xs: seq<T>, ys: seq<T>, u: T)
    ensures Count(xs + ys, u) == Count(xs, u) + Count(ys, u)
  {
    if |xs| > 0 {
      assert (xs + ys)[1..] == xs[1..] + ys;
      CountAppend(xs[1..], ys, u);
    } else {
      assert xs + ys == ys;
    }
  }

  /** An element at two different positions occurs at least twice. */
  lemma {:induction false} CountTwoPositions<T(!new)>(xs: seq<T>, i: nat, j: nat)
    requires i < j < |xs| && xs[i] == xs[j]
    ensures Count(xs, xs[i]) >= 2
  {
    if i > 0 {
      CountTwoPositions(xs[1..], i - 1, j - 1);
    } else {
      assert xs[j] in xs[1..] by { assert xs[1..][j - 1] == xs[j]; }
    }
  }

  /** A list without repeats that holds `x` and nothing else is `[x]`. */
  lemma DistinctSingleton<T(!new)>(xs: seq<T>, x: T)
    requires forall i, j :: 0 <= i < j < |xs| ==> xs[i] != xs[j]
    requires x in xs && forall u :: u in xs ==> u == x
    ensures xs == [x]
  {
    DistinctCount(xs, x);
    CountAllSame(xs, x);
    assert xs[0] in xs;
  }

  /** In a list of copies of `x`, every element counts. */
  lemma {:induction false} CountAllSame<T(!new)>(xs: seq<T>, x: T)
    requires forall u :: u in xs ==> u == x
    ensures Count(xs, x) == |xs|
  {
    if |xs| > 0 {
      assert xs[0] in xs;
      assert forall u :: u in xs[1..] ==> u in xs;
      CountAllSame(xs[1..], x);
    }
  }

  /** `f` holds at every index from `i` up to `n`: a left-to-right scan that
      stops at the first index where `f` fails. */
  predicate AllFrom(f: nat -> bool, n: nat, i: nat)
    decreases n - i
  {
    i >= n || (f(i) && AllFrom(f, n, i + 1))
  }

  /** The scan succeeds exactly when `f` holds at every index it visits. */
  lemma {:induction false} AllFromIff(f: nat -> bool, n: nat, i: nat)
    decreases n - i
    ensures AllFrom(f, n, i) <==> forall k :: i <= k < n ==> f(k)
  {
    if i < n {
      AllFromIff(f, n, i + 1);
    }
  }

  /** Every element of `w` is linked to the next one. */
  predicate IsChain<T>(w: seq<T>, link: (T, T) -> bool) {
    forall k :: 0 <= k < |w| - 1 ==> link(w[k], w[k + 1])
  }

  /** A chain extended by an element linked to its last one is a chain. */
  lemma ChainExtend<T>(w: seq<T>, link: (T, T) -> bool, b: T)
    requires |w| > 0 && IsChain(w, link) && link(w[|w| - 1], b)
    ensures IsChain(w + [b], link)
  {
    var w2 := w + [b];
    forall k | 0 <= k < |w2| - 1
      ensures link(w2[k], w2[k + 1])
    {
      if k < |w| - 1 {
        assert w2[k] == w[k] && w2[k + 1] == w[k + 1];
      }
    }
  }

  /** `e` is reached from `s` through a chain of `link` steps. */
  ghost predicate ReachesBy<T(!new)>(link: (T, T) -> bool, s: T, e: T) {
    exists w: seq<T> :: |w| > 0 && w[0] == s && w[|w| - 1] == e && IsChain(w, link)
  }

  /** Every element reaches itself. */
  lemma ReachesByStart<T(!new)>(link: (T, T) -> bool, s: T)
    ensures ReachesBy(link, s, s)
  {
    assert [s][0] == s;
  }

  /** Reachability extends by one link. */
  lemma ReachesByStep<T(!new)>(link: (T, T) -> bool, s: T, a: T, b: T)
    requires ReachesBy(link, s, a) && link(a, b)
    ensures ReachesBy(link, s, b)
  {
    var w: seq<T> :| |w| > 0 && w[0] == s && w[|w| - 1] == a && IsChain(w, link);
    ChainExtend(w, link, b);
    var w2 := w + [b];
    assert w2[0] == s && w2[|w2| - 1] == b;
  }
}
