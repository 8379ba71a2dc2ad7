/**
 * The randomness the game engine consumes (Go's math/rand), injected as an oracle.
 *
 * An oracle is a sequence of raw draws. `Intn(draw, n)` brings one raw draw into
 * [0, n), so every value rand.Intn(n) can return is the result of some oracle and a
 * property proved for every oracle holds for every run of the generator.
 * `Shuffle` is the Fisher-Yates loop of rand.Shuffle with the source's swap callback,
 * run in place on an array.
 */
module Rand {

  /** The k-th raw draw of an oracle; a draw past its end reads as 0. */
  function Draw(draws: seq<nat>, k: nat): nat
  {
    if k < |draws| then draws[k] else 0
  }

  /** rand.Intn(n) for a raw draw: a value in [0, n), and every such value is reachable. */
  function Intn(draw: nat, n: nat): (r: nat)
    requires 0 < n
    ensures r < n
    ensures draw < n ==> r == draw
  {
    draw % n
  }

  predicate Distinct<T(==)>(s: seq<T>)
  {
    forall i, j | 0 <= i < j < |s| :: s[i] != s[j]
  }

  /** Two pairwise-distinct sequences with no element in common concatenate to a pairwise-distinct one. */
  lemma DistinctConcat<T>(a: seq<T>, b: seq<T>)
    requires Distinct(a) && Distinct(b)
    requires forall i, j | 0 <= i < |a| && 0 <= j < |b| :: a[i] != b[j]
    ensures Distinct(a + b)
  {
    var c := a + b;
    forall i, j | 0 <= i < j < |c|
      ensures c[i] != c[j]
    {
      if j < |a| {
        assert c[i] == a[i] && c[j] == a[j];
      } else if i < |a| {
        assert c[i] == a[i] && c[j] == b[j - |a|];
      } else {
        assert c[i] == b[i - |a|] && c[j] == b[j - |a|];
      }
    }
  }

  /** The swap callback `s[i], s[j] = s[j], s[i]`. */
  function Swap<T>(s: seq<T>, i: nat, j: nat): (r: seq<T>)
    requires i < |s| && j < |s|
    ensures |r| == |s| && r[i] == s[j] && r[j] == s[i]
    ensures forall k | 0 <= k < |s| && k != i && k != j :: r[k] == s[k]
  {
    s[i := s[j]][j := s[i]]
  }

  /** The swaps rand.Shuffle performs at positions i, i-1, ..., 1; position i swaps with Intn(draw_i, i + 1). */
  function ShuffleDown<T>(s: seq<T>, js: seq<nat>, i: nat): (r: seq<T>)
    requires i < |s|
    ensures |r| == |s|
    decreases i
  {
    if i == 0 then s else ShuffleDown(Swap(s, i, Intn(Draw(js, i), i + 1)), js, i - 1)
  }

  /** rand.Shuffle(len(s), swap) under the oracle js. */
  function Shuffled<T>(s: seq<T>, js: seq<nat>): (r: seq<T>)
    ensures |r| == |s|
  {
    if |s| == 0 then s else ShuffleDown(s, js, |s| - 1)
  }

  lemma SwapMultiset<T>(s: seq<T>, i: nat, j: nat)
    requires i < |s| && j < |s|
    ensures multiset(Swap(s, i, j)) == multiset(s)
  {
    var t := s[i := s[j]];
    assert multiset(t) == multiset(s) - multiset{s[i]} + multiset{s[j]};
    assert multiset(t[j := s[i]]) == multiset(t) - multiset{t[j]} + multiset{s[i]};
  }

  lemma SwapDistinct<T>(s: seq<T>, i: nat, j: nat)
    requires i < |s| && j < |s| && Distinct(s)
    ensures Distinct(Swap(s, i, j))
  {
    var r := Swap(s, i, j);
    forall p, q | 0 <= p < q < |r|
      ensures r[p] != r[q]
    {
      var p' := if p == i then j else if p == j then i else p;
      var q' := if q == i then j else if q == j then i else q;
      assert r[p] == s[p'] && r[q] == s[q'] && p' != q';
    }
  }

  lemma {:induction false} ShuffleDownPreserves<T>(s: seq<T>, js: seq<nat>, i: nat)
    requires i < |s|
    ensures multiset(ShuffleDown(s, js, i)) == multiset(s)
    ensures Distinct(s) ==> Distinct(ShuffleDown(s, js, i))
    decreases i
  {
    if i > 0 {
      var j := Intn(Draw(js, i), i + 1);
      SwapMultiset(s, i, j);
      if Distinct(s) {
        SwapDistinct(s, i, j);
      }
      ShuffleDownPreserves(Swap(s, i, j), js, i - 1);
    }
  }

  /** A shuffle is a permutation: the same elements with the same multiplicities. */
  lemma ShuffledPermutation<T>(s: seq<T>, js: seq<nat>)
    ensures multiset(Shuffled(s, js)) == multiset(s)
    ensures forall x :: x in Shuffled(s, js) <==> x in s
  {
    if |s| > 0 {
      ShuffleDownPreserves(s, js, |s| - 1);
    }
    var r := Shuffled(s, js);
    forall x
      ensures x in r <==> x in s
    {
      assert x in r <==> x in multiset(r);
      assert x in s <==> x in multiset(s);
    }
  }

  /** A shuffle of pairwise-distinct elements keeps them pairwise distinct. */
  lemma ShuffledDistinct<T>(s: seq<T>, js: seq<nat>)
    requires Distinct(s)
    ensures Distinct(Shuffled(s, js))
  {
    if |s| > 0 {
      ShuffleDownPreserves(s, js, |s| - 1);
    }
  }

  /** rand.Shuffle over a slice, in place: the array ends as the oracle's shuffle of its old contents. */
  method Shuffle<T>(a: array<T>, js: seq<nat>)
    modifies a
    ensures a[..] == Shuffled(old(a[..]), js)
  {
    if a.Length == 0 {
      return;
    }
    var i := a.Length - 1;
    while i > 0
      invariant 0 <= i < a.Length
      invariant ShuffleDown(a[..], js, i) == Shuffled(old(a[..]), js)
    {
      var j := Intn(Draw(js, i), i + 1);
      ghost var before := a[..];
      a[i], a[j] := a[j], a[i];
      assert a[..] == Swap(before, i, j);
      i := i - 1;
    }
  }
}
