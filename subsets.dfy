/** The ordered enumeration of the non-empty subsets of {0, ..., s-1} that the
    over-segmentation merge uses for its candidates. Its order matters: the
    merge keeps the LAST candidate the classifier accepts. */
module Subsets {
  import opened Volumes

  /** `itertools.combinations(xs, k)`: the k-element subsequences of xs,
      in lexicographic order of positions. */
  function Combinations(xs: seq<nat>, k: nat): seq<seq<nat>>
    decreases |xs|, k
  {
    if k == 0 then [[]]
    else if |xs| < k then []
    else PrefixAll(xs[0], Combinations(xs[1..], k - 1)) + Combinations(xs[1..], k)
  }

  function PrefixAll(x: nat, cs: seq<seq<nat>>): (r: seq<seq<nat>>)
    ensures |r| == |cs| && forall i :: 0 <= i < |cs| ==> r[i] == [x] + cs[i]
  {
    seq(|cs|, i requires 0 <= i < |cs| => [x] + cs[i])
  }

  /** `np.arange(s)`. */
  function Range(s: nat): (r: seq<nat>)
    ensures |r| == s && forall i :: 0 <= i < s ==> r[i] == i
  {
    seq(s, i => i)
  }

  /** The combinations of sizes 1, ..., m of `range(s)`, concatenated size by size. */
  function SubsetsUpTo(s: nat, m: nat): seq<seq<nat>>
    decreases m
  {
    if m == 0 then [] else SubsetsUpTo(s, m - 1) + Combinations(Range(s), m)
  }

  /** Strict lexicographic order on index tuples of equal length. */
  predicate LexLess(a: seq<nat>, b: seq<nat>)
    decreases |a|
  {
    |a| > 0 && |b| > 0 && (a[0] < b[0] || (a[0] == b[0] && LexLess(a[1..], b[1..])))
  }

  /** Order of `all_possible_subsets`: by size, then lexicographically. */
  predicate SizeLexBefore(a: seq<nat>, b: seq<nat>) {
    |a| < |b| || (|a| == |b| && LexLess(a, b))
  }

  lemma {:induction false} LexLessIrreflexive(a: seq<nat>)
    ensures !LexLess(a, a)
    decreases |a|
  {
    if |a| > 0 {
      LexLessIrreflexive(a[1..]);
    }
  }

  // ---------------------------------------------------------------------
  // Counting: the enumeration has 2^s - 1 entries.

  function Binom(n: nat, k: nat): nat {
    if k == 0 then 1 else if n == 0 then 0 else Binom(n - 1, k - 1) + Binom(n - 1, k)
  }

  function Pow2(n: nat): nat {
    if n == 0 then 1 else 2 * Pow2(n - 1)
  }

  /** Binom(n, 0) + ... + Binom(n, m - 1). */
  function SumBinom(n: nat, m: nat): nat {
    if m == 0 then 0 else SumBinom(n, m - 1) + Binom(n, m - 1)
  }

  lemma {:induction false} BinomBeyond(n: nat, k: nat)
    requires k > n
    ensures Binom(n, k) == 0
  {
    if n > 0 {
      BinomBeyond(n - 1, k - 1);
      BinomBeyond(n - 1, k);
    }
  }

  lemma {:induction false} SumBinomPascal(n: nat, m: nat)
    ensures SumBinom(n + 1, m + 1) == SumBinom(n, m + 1) + SumBinom(n, m)
  {
    if m > 0 {
      SumBinomPascal(n, m - 1);
    }
  }

  lemma {:induction false} SumBinomSaturates(n: nat, m: nat)
    requires m >= n + 1
    ensures SumBinom(n, m) == SumBinom(n, n + 1)
  {
    if m > n + 1 {
      SumBinomSaturates(n, m - 1);
      BinomBeyond(n, m - 1);
    }
  }

  lemma {:induction false} SumBinomIsPow2(n: nat)
    ensures SumBinom(n, n + 1) == Pow2(n)
  {
    if n > 0 {
      SumBinomIsPow2(n - 1);
      SumBinomPascal(n - 1, n);
      SumBinomSaturates(n - 1, n + 1);
    }
  }

  lemma {:induction false} CombinationsCount(xs: seq<nat>, k: nat)
    ensures |Combinations(xs, k)| == Binom(|xs|, k)
    decreases |xs|, k
  {
    if k > 0 {
      if |xs| < k {
        BinomBeyond(|xs|, k);
      } else {
        CombinationsCount(xs[1..], k - 1);
        CombinationsCount(xs[1..], k);
      }
    }
  }

  lemma {:induction false} SubsetsUpToCount(s: nat, m: nat)
    ensures |SubsetsUpTo(s, m)| + 1 == SumBinom(s, m + 1)
  {
    if m > 0 {
      SubsetsUpToCount(s, m - 1);
      CombinationsCount(Range(s), m);
    }
  }

  /** `all_possible_subsets(s)` has exactly 2^s - 1 entries; none for s = 0. */
  lemma SubsetsCount(s: nat)
    ensures |SubsetsUpTo(s, s)| == Pow2(s) - 1
  {
    SubsetsUpToCount(s, s);
    SumBinomIsPow2(s);
  }

  // ---------------------------------------------------------------------
  // Shape: every entry is a strictly increasing tuple of indices.

  predicate Within(c: seq<nat>, xs: seq<nat>) {
    forall e :: e in c ==> e in xs
  }

  /** c is one of the k-element tuples drawn from the increasing sequence xs. */
  predicate Drawn(c: seq<nat>, k: nat, xs: seq<nat>) {
    |c| == k && Increasing(c) && Within(c, xs)
  }

  lemma TailAbove(xs: seq<nat>)
    requires Increasing(xs) && |xs| > 0
    ensures forall e :: e in xs[1..] ==> xs[0] < e
    ensures Within(xs[1..], xs)
  {
    forall e | e in xs[1..] ensures xs[0] < e && e in xs {
      var i :| 0 <= i < |xs[1..]| && xs[1..][i] == e;
      assert xs[i + 1] == e;
    }
  }

  lemma PrefixDrawn(xs: seq<nat>, d: seq<nat>, k: nat)
    requires Increasing(xs) && |xs| > 0 && k > 0
    requires Drawn(d, k - 1, xs[1..])
    ensures Drawn([xs[0]] + d, k, xs)
  {
    TailAbove(xs);
    var c := [xs[0]] + d;
    forall p, q | 0 <= p < q < |c| ensures c[p] < c[q] {
      assert c[q] == d[q - 1] && d[q - 1] in d;
      if p > 0 {
        assert c[p] == d[p - 1];
      }
    }
    forall e | e in c ensures e in xs {
      if e != xs[0] {
        assert e in d;
      }
    }
  }

  lemma {:induction false} CombinationsShape(xs: seq<nat>, k: nat)
    requires Increasing(xs)
    ensures forall c :: c in Combinations(xs, k) ==> Drawn(c, k, xs)
    decreases |xs|, k
  {
    if k > 0 && |xs| >= k {
      var tail := xs[1..];
      TailAbove(xs);
      CombinationsShape(tail, k - 1);
      CombinationsShape(tail, k);
      var lo := Combinations(tail, k - 1);
      var hi := Combinations(tail, k);
      var firsts := PrefixAll(xs[0], lo);
      assert Combinations(xs, k) == firsts + hi;
      forall c | c in firsts + hi ensures Drawn(c, k, xs) {
        if c in firsts {
          var i :| 0 <= i < |firsts| && firsts[i] == c;
          assert lo[i] in lo;
          PrefixDrawn(xs, lo[i], k);
        } else {
          assert Drawn(c, k, tail);
        }
      }
    }
  }

  lemma {:induction false} CombinationsOrdered(xs: seq<nat>, k: nat)
    requires Increasing(xs)
    ensures forall i, j :: 0 <= i < j < |Combinations(xs, k)| ==>
      LexLess(Combinations(xs, k)[i], Combinations(xs, k)[j])
    decreases |xs|, k
  {
    if k > 0 && |xs| >= k {
      var tail := xs[1..];
      TailAbove(xs);
      CombinationsOrdered(tail, k - 1);
      CombinationsOrdered(tail, k);
      CombinationsShape(tail, k);
      var lo := Combinations(tail, k - 1);
      var hi := Combinations(tail, k);
      var firsts := PrefixAll(xs[0], lo);
      var all := firsts + hi;
      assert Combinations(xs, k) == all;
      forall i, j | 0 <= i < j < |all| ensures LexLess(all[i], all[j]) {
        if j < |firsts| {
          assert all[i] == [xs[0]] + lo[i] && all[j] == [xs[0]] + lo[j];
          assert all[i][1..] == lo[i] && all[j][1..] == lo[j];
        } else if i < |firsts| {
          var c := hi[j - |firsts|];
          assert all[j] == c && c in hi;
          assert Drawn(c, k, tail);
          assert c[0] in c;
        } else {
          assert all[i] == hi[i - |firsts|] && all[j] == hi[j - |firsts|];
        }
      }
    }
  }

  /** A tuple drawn from xs that starts with xs[0] continues inside xs[1..]. */
  lemma RestWithinTail(xs: seq<nat>, c: seq<nat>)
    requires Increasing(xs) && Increasing(c) && Within(c, xs)
    requires c != [] && xs != [] && c[0] == xs[0]
    ensures Within(c[1..], xs[1..])
  {
    forall e | e in c[1..] ensures e in xs[1..] {
      var p :| 0 <= p < |c[1..]| && c[1..][p] == e;
      assert c[0] < e && e in c;
      var q :| 0 <= q < |xs| && xs[q] == e;
      assert q != 0;
    }
  }

  /** A tuple drawn from xs that does not start with xs[0] lies inside xs[1..]. */
  lemma AllWithinTail(xs: seq<nat>, c: seq<nat>)
    requires Increasing(xs) && Increasing(c) && Within(c, xs)
    requires c != [] && xs != [] && c[0] != xs[0]
    ensures Within(c, xs[1..])
  {
    assert c[0] in c;
    forall e | e in c ensures e in xs[1..] {
      var p :| 0 <= p < |c| && c[p] == e;
      assert c[0] <= e;
      var q :| 0 <= q < |xs| && xs[q] == c[0];
      assert q != 0;
      var r :| 0 <= r < |xs| && xs[r] == e;
      assert r != 0;
    }
  }

  lemma {:induction false} CombinationsComplete(xs: seq<nat>, c: seq<nat>)
    requires Increasing(xs) && Increasing(c) && Within(c, xs)
    ensures c in Combinations(xs, |c|)
    decreases |xs|
  {
    if c != [] {
      assert c[0] in c;
      var tail := xs[1..];
      if c[0] == xs[0] {
        RestWithinTail(xs, c);
        CombinationsComplete(tail, c[1..]);
        var lo := Combinations(tail, |c| - 1);
        var i :| 0 <= i < |lo| && lo[i] == c[1..];
        assert PrefixAll(xs[0], lo)[i] == c;
      } else {
        AllWithinTail(xs, c);
        CombinationsComplete(tail, c);
      }
    }
  }

  lemma {:induction false} SubsetsUpToProperties(s: nat, m: nat)
    ensures forall c :: c in SubsetsUpTo(s, m) ==>
      1 <= |c| <= m && Increasing(c) && forall e :: e in c ==> e < s
    ensures forall i, j :: 0 <= i < j < |SubsetsUpTo(s, m)| ==>
      SizeLexBefore(SubsetsUpTo(s, m)[i], SubsetsUpTo(s, m)[j])
  {
    if m > 0 {
      SubsetsUpToProperties(s, m - 1);
      CombinationsShape(Range(s), m);
      CombinationsOrdered(Range(s), m);
      var a := SubsetsUpTo(s, m - 1);
      var b := Combinations(Range(s), m);
      var all := SubsetsUpTo(s, m);
      assert all == a + b;
      forall c | c in all ensures 1 <= |c| <= m && Increasing(c) && forall e :: e in c ==> e < s {
        if c in a {
        } else {
          assert c in b;
        }
      }
      forall i, j | 0 <= i < j < |all| ensures SizeLexBefore(all[i], all[j]) {
        if j < |a| {
          assert all[i] == a[i] && all[j] == a[j];
        } else if i < |a| {
          assert all[i] == a[i] && a[i] in a;
          assert all[j] == b[j - |a|] && b[j - |a|] in b;
        } else {
          assert all[i] == b[i - |a|] && all[j] == b[j - |a|];
        }
      }
    }
  }

  /** Every entry of `all_possible_subsets(s)` is a non-empty strictly
      increasing tuple of indices below s; sizes never decrease along the
      list, equal sizes come in lexicographic order, so no entry repeats. */
  lemma SubsetsShape(s: nat)
    ensures forall c :: c in SubsetsUpTo(s, s) ==>
      1 <= |c| <= s && Increasing(c) && forall e :: e in c ==> e < s
    ensures forall i, j :: 0 <= i < j < |SubsetsUpTo(s, s)| ==>
      SizeLexBefore(SubsetsUpTo(s, s)[i], SubsetsUpTo(s, s)[j]) &&
      SubsetsUpTo(s, s)[i] != SubsetsUpTo(s, s)[j]
  {
    SubsetsUpToProperties(s, s);
    forall i, j | 0 <= i < j < |SubsetsUpTo(s, s)|
      ensures SubsetsUpTo(s, s)[i] != SubsetsUpTo(s, s)[j]
    {
      LexLessIrreflexive(SubsetsUpTo(s, s)[i]);
    }
  }

  /** Every non-empty strictly increasing tuple of indices below s occurs. */
  lemma SubsetsComplete(s: nat, c: seq<nat>)
    requires 1 <= |c| <= s && Increasing(c) && forall e :: e in c ==> e < s
    ensures c in SubsetsUpTo(s, s)
  {
    forall e | e in c ensures e in Range(s) {
      assert Range(s)[e] == e;
    }
    CombinationsComplete(Range(s), c);
    SubsetsUpToContains(s, s, |c|, c);
  }

  lemma {:induction false} SubsetsUpToContains(s: nat, m: nat, k: nat, c: seq<nat>)
    requires 1 <= k <= m && c in Combinations(Range(s), k)
    ensures c in SubsetsUpTo(s, m)
  {
    if k < m {
      SubsetsUpToContains(s, m - 1, k, c);
    }
  }

  lemma {:induction false} CombinationsOfAll(xs: seq<nat>)
    ensures Combinations(xs, |xs|) == [xs]
    decreases |xs|
  {
    if |xs| > 0 {
      CombinationsOfAll(xs[1..]);
      BinomBeyond(|xs| - 1, |xs|);
      CombinationsCount(xs[1..], |xs|);
      assert [xs[0]] + xs[1..] == xs;
    }
  }

  /** The full index set {0, ..., s-1} is the last entry. */
  lemma SubsetsLastIsAll(s: nat)
    requires s > 0
    ensures |SubsetsUpTo(s, s)| > 0 && SubsetsUpTo(s, s)[|SubsetsUpTo(s, s)| - 1] == Range(s)
  {
    CombinationsOfAll(Range(s));
    assert SubsetsUpTo(s, s) == SubsetsUpTo(s, s - 1) + [Range(s)];
  }

  /** `all_possible_subsets`: concatenates the combinations of each size k = 1..s. */
  method AllPossibleSubsets(s: nat) returns (subSets: seq<seq<nat>>)
    ensures subSets == SubsetsUpTo(s, s)
    ensures |subSets| == Pow2(s) - 1
  {
    subSets := [];
    for k := 1 to s + 1
      invariant subSets == SubsetsUpTo(s, k - 1)
    {
      subSets := subSets + Combinations(Range(s), k);
    }
    SubsetsCount(s);
  }
}
