/** `shuffleArray`: the Fisher–Yates shuffle. `Math.random` becomes a
    sequence of draws in [0, 1), consumed one per swap, from the last index
    down to index 1. */
module Shuffle {

  /** What `Math.random` may return. */
  predicate IsDraw(r: real)
  {
    0.0 <= r < 1.0
  }

  /** Enough draws in [0, 1) for shuffling `n` elements: one per index from
      `n - 1` down to 1. */
  predicate ValidRandom(n: nat, random: seq<real>)
  {
    && |random| >= n - 1
    && forall k :: 0 <= k < |random| ==> IsDraw(random[k])
  }

  /** `Math.floor(r * (i + 1))`: an index in [0, i]. */
  function Pick(r: real, i: nat): (j: nat)
    requires IsDraw(r)
    ensures j <= i
  {
    DrawScale(r, (i + 1) as real);
    (r * (i + 1) as real).Floor
  }

  /** A draw scaled by a positive bound stays below the bound. */
  lemma DrawScale(r: real, m: real)
    requires IsDraw(r) && 0.0 < m
    ensures 0.0 <= r * m < m
  {
    assert m - r * m == (1.0 - r) * m;
  }

  /** Picks for `n` elements: the `k`-th swap exchanges index `n - 1 - k`
      with an index no greater than it. */
  predicate ValidPicks(n: nat, picks: seq<nat>)
  {
    && |picks| >= n - 1
    && forall k :: 0 <= k < n - 1 ==> picks[k] <= n - 1 - k
  }

  /** The indices the draws select, in the order the loop consumes them. */
  function PicksOf(random: seq<real>, n: nat): (picks: seq<nat>)
    requires ValidRandom(n, random)
    ensures ValidPicks(n, picks)
  {
    var m := if n == 0 then 0 else n - 1;
    seq(m, k requires 0 <= k < m => Pick(random[k], n - 1 - k))
  }

  /** The pick of loop turn `k`, read from its draw. */
  method PickAt(random: seq<real>, n: nat, k: nat) returns (j: nat)
    requires ValidRandom(n, random) && k < n - 1
    ensures j == PicksOf(random, n)[k] && j <= n - 1 - k
  {
    j := Pick(random[k], n - 1 - k);
  }

  /** `[s[i], s[j]] = [s[j], s[i]]`. */
  function Swap<T>(s: seq<T>, i: nat, j: nat): seq<T>
    requires i < |s| && j < |s|
  {
    s[i := s[j]][j := s[i]]
  }

  /** A swap only rearranges. */
  lemma SwapPermutes<T>(s: seq<T>, i: nat, j: nat)
    requires i < |s| && j < |s|
    ensures multiset(Swap(s, i, j)) == multiset(s)
  {
  }

  /** The loop from index `i` down to 1 on the current arrangement `s`:
      a permutation of `s` that leaves every position above `i` alone. */
  function Steps<T>(s: seq<T>, i: int, picks: seq<nat>): (r: seq<T>)
    requires i < |s| && ValidPicks(|s|, picks)
    ensures |r| == |s|
    decreases i
  {
    if i <= 0 then s
    else Steps(Swap(s, i, picks[|s| - 1 - i]), i - 1, picks)
  }

  /** Once the loop is past index `i`, position `i` and everything above it
      are final. */
  lemma {:induction false} StepsKeepsAbove<T>(s: seq<T>, i: int, picks: seq<nat>)
    requires i < |s| && ValidPicks(|s|, picks)
    ensures forall k :: i < k < |s| && 0 <= k ==> Steps(s, i, picks)[k] == s[k]
    decreases i
  {
    if i > 0 {
      var t := Swap(s, i, picks[|s| - 1 - i]);
      StepsKeepsAbove(t, i - 1, picks);
    }
  }

  /** The steps only rearrange. */
  lemma {:induction false} StepsPermutes<T>(s: seq<T>, i: int, picks: seq<nat>)
    requires i < |s| && ValidPicks(|s|, picks)
    ensures multiset(Steps(s, i, picks)) == multiset(s)
    decreases i
  {
    if i > 0 {
      var t := Swap(s, i, picks[|s| - 1 - i]);
      SwapPermutes(s, i, picks[|s| - 1 - i]);
      StepsPermutes(t, i - 1, picks);
    }
  }

  /** The shuffle of `s` under the given picks. */
  function FisherYates<T>(s: seq<T>, picks: seq<nat>): (r: seq<T>)
    requires ValidPicks(|s|, picks)
    ensures |r| == |s| && multiset(r) == multiset(s)
    ensures |s| <= 1 ==> r == s
  {
    StepsPermutes(s, |s| - 1, picks);
    Steps(s, |s| - 1, picks)
  }

  /** `shuffleArray(array)`: the array is rearranged in place, with
      `random` standing for the successive results of `Math.random()`. */
  method ShuffleInPlace<T>(a: array<T>, random: seq<real>)
    requires ValidRandom(a.Length, random)
    modifies a
    ensures a[..] == FisherYates(old(a[..]), PicksOf(random, a.Length))
  {
    ghost var picks := PicksOf(random, a.Length);
    ghost var target := FisherYates(a[..], picks);
    ghost var cur := a[..];
    var i := a.Length - 1;
    while i > 0
      invariant -1 <= i < a.Length == |cur|
      invariant forall k :: 0 <= k < a.Length ==> a[k] == cur[k]
      invariant Steps(cur, i, picks) == target
    {
      var j := PickAt(random, a.Length, a.Length - 1 - i);
      SwapStep(cur, i, j, picks);
      a[i], a[j] := a[j], a[i];
      cur := Swap(cur, i, j);
      i := i - 1;
    }
    assert a[..] == cur;
  }

  /** The shuffle applied to a fresh array holding `s`: a permutation of
      `s`, and `s` itself when there is nothing to shuffle. */
  method ShuffleArray<T>(s: seq<T>, random: seq<real>) returns (r: seq<T>)
    requires ValidRandom(|s|, random)
    ensures r == FisherYates(s, PicksOf(random, |s|))
    ensures |r| == |s| && multiset(r) == multiset(s)
    ensures |s| <= 1 ==> r == s
  {
    var a := new T[|s|](k requires 0 <= k < |s| => s[k]);
    assert a[..] == s;
    ShuffleInPlace(a, random);
    r := a[..];
  }

  /** One turn of the loop: after swapping index `i` with its pick, the
      remaining turns give what all turns from `i` give. */
  lemma SwapStep<T>(cur: seq<T>, i: int, j: nat, picks: seq<nat>)
    requires 0 < i < |cur| && ValidPicks(|cur|, picks) && j == picks[|cur| - 1 - i]
    ensures Steps(Swap(cur, i, j), i - 1, picks) == Steps(cur, i, picks)
  {
  }

  predicate Distinct<T(==)>(s: seq<T>)
  {
    forall k, m :: 0 <= k < m < |s| ==> s[k] != s[m]
  }

  /** A swap keeps elements distinct. */
  lemma SwapDistinct<T>(s: seq<T>, i: nat, j: nat)
    requires i < |s| && j < |s| && Distinct(s)
    ensures Distinct(Swap(s, i, j))
  {
    var t := Swap(s, i, j);
    forall a, b | 0 <= a < b < |t| ensures t[a] != t[b] {
      var a' := if a == i then j else if a == j then i else a;
      var b' := if b == i then j else if b == j then i else b;
      assert t[a] == s[a'] && t[b] == s[b'];
    }
  }

  /** Different picks give different arrangements of distinct elements: the
      first step where the picks differ puts different elements at its index,
      and no later step moves them. */
  lemma {:induction false} StepsInjective<T>(s: seq<T>, i: int, p: seq<nat>, q: seq<nat>, k: nat)
    requires i < |s| && ValidPicks(|s|, p) && ValidPicks(|s|, q)
    requires Distinct(s)
    requires |s| - 1 - i <= k < |s| - 1 && p[k] != q[k]
    ensures Steps(s, i, p) != Steps(s, i, q)
    decreases i
  {
    var step := |s| - 1 - i;
    var sp := Swap(s, i, p[step]);
    var sq := Swap(s, i, q[step]);
    SwapStep(s, i, p[step], p);
    SwapStep(s, i, q[step], q);
    if p[step] != q[step] {
      StepsKeepsAbove(sp, i - 1, p);
      StepsKeepsAbove(sq, i - 1, q);
      assert Steps(s, i, p)[i] == s[p[step]];
      assert Steps(s, i, q)[i] == s[q[step]];
    } else {
      assert sp == sq;
      SwapDistinct(s, i, p[step]);
      StepsInjective(sp, i - 1, p, q, k);
    }
  }

  /** On distinct elements, two pick sequences that differ anywhere give
      different shuffles. */
  lemma FisherYatesInjective<T>(s: seq<T>, p: seq<nat>, q: seq<nat>)
    requires ValidPicks(|s|, p) && ValidPicks(|s|, q)
    requires Distinct(s)
    requires exists k :: 0 <= k < |s| - 1 && p[k] != q[k]
    ensures FisherYates(s, p) != FisherYates(s, q)
  {
    var k :| 0 <= k < |s| - 1 && p[k] != q[k];
    StepsInjective(s, |s| - 1, p, q, k);
  }
}
