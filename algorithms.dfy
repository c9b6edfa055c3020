/**
 * The algorithm lists of `defaulted_algorithms` (src/bagit/bag.rs) and of
 * `BagUpdater::finalize`: sort, then drop adjacent duplicates, which leaves
 * each algorithm of the input exactly once, in `Ord` order.
 */
module Algorithms {
  import opened Common
  import opened Digest
  import Consts

  /** Sorted by the derived order with no algorithm twice. */
  predicate StrictlyIncreasing(s: seq<DigestAlgorithm>)
  {
    forall i, j | 0 <= i < j < |s| :: Less(s[i], s[j])
  }

  /** Same algorithms, ignoring order and repetition. */
  predicate SameElements(s: seq<DigestAlgorithm>, t: seq<DigestAlgorithm>)
  {
    forall a :: a in s <==> a in t
  }

  /** `x` put into its place in a strictly increasing list, unless it is there already. */
  function Insert(s: seq<DigestAlgorithm>, x: DigestAlgorithm): (r: seq<DigestAlgorithm>)
    requires StrictlyIncreasing(s)
    ensures StrictlyIncreasing(r)
    ensures forall a :: a in r <==> a in s || a == x
  {
    if s == [] then [x]
    else if x == s[0] then s
    else if Less(x, s[0]) then [x] + s
    else
      var t := Insert(s[1..], x);
      assert forall a | a in s[1..] :: Less(s[0], a);
      [s[0]] + t
  }

  /** `new.sort(); new.dedup();` on a copy of the input. */
  method SortDedup(algorithms: seq<DigestAlgorithm>) returns (r: seq<DigestAlgorithm>)
    ensures StrictlyIncreasing(r)
    ensures SameElements(r, algorithms)
  {
    r := [];
    var i := 0;
    while i < |algorithms|
      invariant 0 <= i <= |algorithms|
      invariant StrictlyIncreasing(r)
      invariant SameElements(r, algorithms[..i])
    {
      assert algorithms[..i + 1] == algorithms[..i] + [algorithms[i]];
      r := Insert(r, algorithms[i]);
      i := i + 1;
    }
    assert algorithms[..i] == algorithms;
  }

  /** What `defaulted_algorithms` returns for `input`. */
  predicate IsDefaulted(input: seq<DigestAlgorithm>, r: seq<DigestAlgorithm>)
  {
    if input == [] then r == [Consts.DEFAULT_ALGORITHM]
    else StrictlyIncreasing(r) && SameElements(r, input)
  }

  /** `defaulted_algorithms`: the default algorithm for an empty input, else the input sorted and deduplicated. */
  method DefaultedAlgorithms(algorithms: seq<DigestAlgorithm>) returns (r: seq<DigestAlgorithm>)
    ensures algorithms == [] ==> r == [Consts.DEFAULT_ALGORITHM]
    ensures algorithms != [] ==> StrictlyIncreasing(r) && SameElements(r, algorithms)
    ensures r != [] && StrictlyIncreasing(r) && IsDefaulted(algorithms, r)
  {
    if algorithms == [] {
      r := [Consts.DEFAULT_ALGORITHM];
    } else {
      r := SortDedup(algorithms);
      assert algorithms[0] in r;
    }
  }

  /** The empty input gives `sha512`. */
  lemma DefaultIsSha512()
    ensures [Consts.DEFAULT_ALGORITHM] == [Sha512]
    ensures StrictlyIncreasing([Consts.DEFAULT_ALGORITHM])
  {
  }

  /**
   * A strictly increasing list is determined by its elements, so any two
   * sort-and-dedup results of inputs with the same elements are equal.
   */
  lemma {:induction false} StrictlyIncreasingUnique(s: seq<DigestAlgorithm>, t: seq<DigestAlgorithm>)
    requires StrictlyIncreasing(s) && StrictlyIncreasing(t)
    requires SameElements(s, t)
    ensures s == t
    decreases |s|
  {
    if s != [] { assert s[0] in t; }
    if t != [] { assert t[0] in s; }
    if s != [] && t != [] {
      FirstIsLeast(s, t[0]);
      FirstIsLeast(t, s[0]);
      forall a ensures a in s[1..] <==> a in t[1..] {
        if a in s[1..] {
          var k :| 1 <= k < |s| && s[k] == a;
          assert Less(s[0], a);
          assert a in t && a != t[0];
        }
        if a in t[1..] {
          var k :| 1 <= k < |t| && t[k] == a;
          assert Less(t[0], a);
          assert a in s && a != s[0];
        }
      }
      StrictlyIncreasingUnique(s[1..], t[1..]);
      assert s == [s[0]] + s[1..] && t == [t[0]] + t[1..];
    }
  }

  /** The head of a strictly increasing list is below every other element. */
  lemma FirstIsLeast(s: seq<DigestAlgorithm>, x: DigestAlgorithm)
    requires StrictlyIncreasing(s) && x in s
    ensures x == s[0] || Less(s[0], x)
  {
    var k :| 0 <= k < |s| && s[k] == x;
    if k > 0 { assert Less(s[0], s[k]); }
  }

  /** Order and repetition of the input do not matter: inputs with the same elements give the same list. */
  lemma DefaultedUnique(a: seq<DigestAlgorithm>, ra: seq<DigestAlgorithm>, b: seq<DigestAlgorithm>, rb: seq<DigestAlgorithm>)
    requires IsDefaulted(a, ra) && IsDefaulted(b, rb)
    requires SameElements(a, b)
    ensures ra == rb
  {
    if a != [] { assert a[0] in b; }
    if b != [] { assert b[0] in a; }
    if a != [] {
      StrictlyIncreasingUnique(ra, rb);
    }
  }

  /** A strictly increasing list holds at most one of each of the six algorithms. */
  lemma {:induction false} StrictlyIncreasingBound(s: seq<DigestAlgorithm>)
    requires StrictlyIncreasing(s)
    ensures |s| <= 6
  {
    if |s| > 6 {
      RanksIncrease(s, 6);
    }
  }

  lemma {:induction false} RanksIncrease(s: seq<DigestAlgorithm>, k: nat)
    requires StrictlyIncreasing(s) && k < |s|
    ensures Rank(s[k]) >= k
  {
    if k > 0 {
      RanksIncrease(s, k - 1);
    }
  }
}
