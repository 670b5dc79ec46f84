/** The random draws of the modelled code as nondeterministic choice: every
    property proved of a caller holds for every outcome of the draw. Only
    which outcomes are possible is modelled, not their probabilities. */
module Random {
  import opened Wrappers

  predicate Distinct<T(==)>(s: seq<T>) {
    forall i, j :: 0 <= i < j < |s| ==> s[i] != s[j]
  }

  /** A sequence without repetitions has as many elements as its set. */
  lemma {:induction false} DistinctCard<T>(s: seq<T>)
    requires Distinct(s)
    ensures |set x | x in s| == |s|
  {
    if s != [] {
      var rest := s[1..];
      assert Distinct(rest) by {
        forall i, j | 0 <= i < j < |rest| ensures rest[i] != rest[j] {
          assert rest[i] == s[i + 1] && rest[j] == s[j + 1];
        }
      }
      DistinctCard(rest);
      assert s[0] !in rest by {
        forall i | 0 <= i < |rest| ensures rest[i] != s[0] {
          assert rest[i] == s[i + 1];
        }
      }
      assert (set x | x in s) == {s[0]} + (set x | x in rest) by {
        assert s == [s[0]] + rest;
      }
    }
  }

  /** An element at two positions occurs at least twice. */
  lemma CountTwice<T>(s: seq<T>, i: nat, j: nat)
    requires i < j < |s| && s[i] == s[j]
    ensures multiset(s)[s[i]] >= 2
  {
    assert s == s[..j] + s[j..];
    assert s[i] in s[..j];
    assert s[j..][0] == s[j];
  }

  /** In a sequence without repetitions every element occurs at most once. */
  lemma {:induction false} CountOnce<T>(s: seq<T>, x: T)
    requires Distinct(s)
    ensures multiset(s)[x] <= 1
  {
    if s != [] {
      assert s == [s[0]] + s[1..];
      assert Distinct(s[1..]);
      CountOnce(s[1..], x);
      if x == s[0] {
        assert x !in s[1..];
      }
    }
  }

  /** A permutation of a sequence without repetitions has none either,
      and the same elements. */
  lemma PermutedDistinct<T>(s: seq<T>, t: seq<T>)
    requires Distinct(s) && multiset(t) == multiset(s)
    ensures Distinct(t)
    ensures forall x :: x in t <==> x in s
  {
    forall x ensures x in t <==> x in s {
      assert x in t <==> x in multiset(t);
      assert x in s <==> x in multiset(s);
    }
    forall i, j | 0 <= i < j < |t| ensures t[i] != t[j] {
      if t[i] == t[j] {
        CountTwice(t, i, j);
        CountOnce(s, t[i]);
      }
    }
  }

  /** random.shuffle / np.random.shuffle: the result is some permutation of
      the input (Fisher-Yates with each swap partner chosen freely). */
  method Shuffle<T>(s: seq<T>) returns (r: seq<T>)
    ensures |r| == |s|
    ensures multiset(r) == multiset(s)
  {
    r := s;
    var i := 0;
    while i < |r|
      invariant i <= |r| == |s|
      invariant multiset(r) == multiset(s)
    {
      var j :| i <= j < |r|;
      var a, b := r[i], r[j];
      r := r[i := b][j := a];
      i := i + 1;
    }
  }

  /** random.sample(population, k): k elements at k distinct positions of
      the population (picks[i] is the position of the i-th element); a
      negative k or one above the population size raises ValueError. */
  method Sample<T>(population: seq<T>, k: int) returns (r: Result<seq<T>>, ghost picks: seq<nat>)
    ensures r.Err? <==> k < 0 || k > |population|
    ensures r.Err? ==> r.error == ValueError
    ensures r.Ok? ==> |r.value| == k && |picks| == k && Distinct(picks)
    ensures r.Ok? ==> forall i :: 0 <= i < k ==> picks[i] < |population| && r.value[i] == population[picks[i]]
  {
    if k < 0 || k > |population| {
      return Err(ValueError), [];
    }
    var chosen: seq<T> := [];
    var avail: seq<nat> := seq(|population|, i => i);
    picks := [];
    while |chosen| < k
      invariant |chosen| == |picks| <= k
      invariant |avail| == |population| - |chosen|
      invariant forall i :: 0 <= i < |avail| ==> avail[i] < |population|
      invariant forall i :: 0 <= i < |chosen| ==> picks[i] < |population| && chosen[i] == population[picks[i]]
      invariant Distinct(picks) && Distinct(avail)
      invariant forall i, j :: 0 <= i < |picks| && 0 <= j < |avail| ==> picks[i] != avail[j]
    {
      var j :| 0 <= j < |avail|;
      chosen := chosen + [population[avail[j]]];
      picks := picks + [avail[j]];
      avail := avail[..j] + avail[j + 1..];
    }
    r := Ok(chosen);
  }

  /** random.choice(xs): some element; IndexError on an empty sequence. */
  method Choice<T(==)>(xs: seq<T>) returns (r: Result<T>)
    ensures r.Ok? <==> xs != []
    ensures r.Err? ==> r.error == IndexError
    ensures r.Ok? ==> r.value in xs
  {
    if xs == [] {
      return Err(IndexError);
    }
    var i :| 0 <= i < |xs|;
    r := Ok(xs[i]);
  }
}
