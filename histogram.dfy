/**
  The bin layout of the degree histogram (chains/network_analysis.py, line 85):
  bin edges `range(min(degrees), max(degrees) + 2)`, so every integer degree
  value from the smallest to the largest gets its own bin of width 1. The
  drawing itself is not modelled; the bin counts are what the bars show.
*/
module DegreeHistogram {

  function MinOf(xs: seq<int>): (m: int)
    requires |xs| > 0
    ensures m in xs
    ensures forall i :: 0 <= i < |xs| ==> m <= xs[i]
  {
    if |xs| == 1 then xs[0]
    else
      var m := MinOf(xs[..|xs| - 1]);
      assert xs == xs[..|xs| - 1] + [xs[|xs| - 1]];
      if xs[|xs| - 1] < m then xs[|xs| - 1] else m
  }

  function MaxOf(xs: seq<int>): (m: int)
    requires |xs| > 0
    ensures m in xs
    ensures forall i :: 0 <= i < |xs| ==> xs[i] <= m
  {
    if |xs| == 1 then xs[0]
    else
      var m := MaxOf(xs[..|xs| - 1]);
      assert xs == xs[..|xs| - 1] + [xs[|xs| - 1]];
      if xs[|xs| - 1] > m then xs[|xs| - 1] else m
  }

  /** `range(min(xs), max(xs) + 2)`: the bin edges. */
  function BinEdges(xs: seq<int>): seq<int>
    requires |xs| > 0
  {
    var lo, hi := MinOf(xs), MaxOf(xs);
    seq(hi - lo + 2, i requires 0 <= i < hi - lo + 2 => lo + i)
  }

  /** How often `x` occurs in `xs`. */
  function Count(xs: seq<int>, x: int): nat {
    if xs == [] then 0
    else Count(xs[..|xs| - 1], x) + (if xs[|xs| - 1] == x then 1 else 0)
  }

  /** The frequencies of the `n` consecutive values starting at `lo`. */
  function Frequencies(xs: seq<int>, lo: int, n: nat): (f: seq<nat>)
    ensures |f| == n
  {
    if n == 0 then [] else Frequencies(xs, lo, n - 1) + [Count(xs, lo + n - 1)]
  }

  /** The bar heights: one frequency per bin between consecutive edges. */
  function BinCounts(xs: seq<int>): seq<nat>
    requires |xs| > 0
  {
    Frequencies(xs, MinOf(xs), MaxOf(xs) - MinOf(xs) + 1)
  }

  function Sum(s: seq<nat>): nat {
    if s == [] then 0 else Sum(s[..|s| - 1]) + s[|s| - 1]
  }

  /**
    The edges run from the smallest value to one past the largest in steps of
    one, and every value lies in exactly one bin: the one starting at that value.
    A constant sequence gets a single bin.
  */
  lemma BinsCoverEachValueOnce(xs: seq<int>, x: int)
    requires |xs| > 0 && x in xs
    ensures var e := BinEdges(xs);
      && |e| >= 2 && e[0] == MinOf(xs) && e[|e| - 1] == MaxOf(xs) + 1
      && (forall i :: 0 <= i < |e| - 1 ==> e[i + 1] == e[i] + 1)
      && 0 <= x - e[0] < |e| - 1 && e[x - e[0]] == x
      && (forall i :: 0 <= i < |e| - 1 && e[i] <= x < e[i + 1] ==> i == x - e[0])
  {
  }

  lemma {:induction false} CountAppend(xs: seq<int>, w: int, x: int)
    ensures Count(xs + [w], x) == Count(xs, x) + (if w == x then 1 else 0)
  {
    assert (xs + [w])[..|xs|] == xs;
  }

  lemma SumAppend(s: seq<nat>, x: nat)
    ensures Sum(s + [x]) == Sum(s) + x
  {
    assert (s + [x])[..|s|] == s;
  }

  lemma {:induction false} FrequenciesAppend(xs: seq<int>, w: int, lo: int, n: nat)
    ensures Sum(Frequencies(xs + [w], lo, n)) ==
            Sum(Frequencies(xs, lo, n)) + (if lo <= w < lo + n then 1 else 0)
  {
    if n > 0 {
      FrequenciesAppend(xs, w, lo, n - 1);
      CountAppend(xs, w, lo + n - 1);
      SumAppend(Frequencies(xs, lo, n - 1), Count(xs, lo + n - 1));
      SumAppend(Frequencies(xs + [w], lo, n - 1), Count(xs + [w], lo + n - 1));
    }
  }

  /** Frequencies over a range that holds every value add up to the number of values. */
  lemma {:induction false} FrequenciesSum(xs: seq<int>, lo: int, n: nat)
    requires forall i :: 0 <= i < |xs| ==> lo <= xs[i] < lo + n
    ensures Sum(Frequencies(xs, lo, n)) == |xs|
  {
    if xs == [] {
      ZeroFrequencies(xs, lo, n);
    } else {
      var init, w := xs[..|xs| - 1], xs[|xs| - 1];
      assert xs == init + [w];
      FrequenciesSum(init, lo, n);
      FrequenciesAppend(init, w, lo, n);
    }
  }

  lemma {:induction false} ZeroFrequencies(xs: seq<int>, lo: int, n: nat)
    requires xs == []
    ensures Sum(Frequencies(xs, lo, n)) == 0
  {
    if n > 0 {
      ZeroFrequencies(xs, lo, n - 1);
      SumAppend(Frequencies(xs, lo, n - 1), Count(xs, lo + n - 1));
    }
  }

  /** The histogram has one bar per bin and its bars add up to the number of nodes. */
  lemma BinCountsTotal(xs: seq<int>)
    requires |xs| > 0
    ensures |BinCounts(xs)| == |BinEdges(xs)| - 1
    ensures Sum(BinCounts(xs)) == |xs|
  {
    var lo, n := MinOf(xs), MaxOf(xs) - MinOf(xs) + 1;
    FrequenciesSum(xs, lo, n);
  }
}
