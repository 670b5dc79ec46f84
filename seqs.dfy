/** Small facts about taking sequences apart and putting them back. */
module Seqs {

  lemma ConsTail<T>(s: seq<T>)
    requires s != []
    ensures [s[0]] + s[1..] == s
  {
  }

  lemma FrontLast<T>(s: seq<T>)
    requires s != []
    ensures s[..|s| - 1] + [s[|s| - 1]] == s
  {
  }

  lemma ConsSnoc<T>(s: seq<T>, y: T)
    requires s != []
    ensures [s[0]] + (s[1..] + [y]) == s + [y]
  {
    ConsTail(s);
  }

  lemma TakeSnoc<T>(s: seq<T>, n: nat)
    requires 0 < n <= |s|
    ensures s[..n - 1] + [s[n - 1]] == s[..n]
  {
  }

  lemma TakeDrop<T>(s: seq<T>, i: nat)
    requires i < |s|
    ensures s[..i] + s[i..] == s && s[i..][0] == s[i] && s[i..][1..] == s[i + 1..]
  {
  }

  lemma ConsLast<T>(x: T, s: seq<T>)
    requires s != []
    ensures |[x] + s| == |s| + 1 && ([x] + s)[|s|] == s[|s| - 1]
  {
  }
}
