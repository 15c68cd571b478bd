/**
 * Small facts about sequence concatenation and slicing, each proved on its own
 * so that the string proofs can use them without redoing extensionality.
 */
module Seqs {

  lemma EmptyLeft<T>(a: seq<T>, b: seq<T>)
    requires |a| == 0
    ensures a + b == b
  {
  }

  lemma EmptyRight<T>(a: seq<T>, b: seq<T>)
    requires |b| == 0
    ensures a + b == a
  {
  }

  lemma DropOneConcat<T>(a: seq<T>, b: seq<T>)
    requires |a| > 0
    ensures (a + b)[0] == a[0] && (a + b)[1..] == a[1..] + b
  {
  }

  lemma SliceConcat<T>(a: seq<T>, b: seq<T>, n: nat)
    requires n <= |a|
    ensures (a + b)[..n] == a[..n] && (a + b)[n..] == a[n..] + b
  {
  }

  lemma DropLastConcat<T>(a: seq<T>, b: seq<T>)
    requires |b| > 0
    ensures (a + b)[..|a + b| - 1] == a + b[..|b| - 1]
  {
  }

  lemma AppendAssoc<T>(a: seq<T>, b: seq<T>, c: seq<T>)
    ensures a + b + c == a + (b + c)
  {
  }

  lemma ConsConcat3<T>(x: T, p: seq<T>, q: seq<T>, r: seq<T>)
    ensures [x] + (p + q + r) == ([x] + p) + q + r
  {
  }

  lemma ConsSplit<T>(s: seq<T>)
    requires |s| > 0
    ensures [s[0]] + s[1..] == s
  {
  }

  lemma TwoSlices<T>(s: seq<T>, i: nat)
    requires i <= |s|
    ensures s[..i] + s[i..] == s
  {
  }

  lemma ThreeSlices<T>(s: seq<T>, i: nat, j: nat)
    requires i <= j <= |s|
    ensures s[..i] + s[i..j] + s[j..] == s
  {
  }

  lemma SliceCons<T>(s: seq<T>, i: nat)
    requires i < |s|
    ensures s[i..] == [s[i]] + s[i + 1..]
  {
  }

  lemma AppendAssoc4<T>(a: seq<T>, b: seq<T>, c: seq<T>, d: seq<T>)
    ensures a + (b + (c + d)) == a + b + c + d
  {
  }

  lemma AppendOne<T>(a: seq<T>, x: T, d: seq<T>)
    ensures a + ([x] + d) == (a + [x]) + d
  {
  }

  lemma AppendAssocLeft<T>(c: seq<T>, f: seq<T>, w: seq<T>, r: seq<T>)
    ensures c + (f + w + r) == c + f + w + r
  {
  }

  lemma DropLastSlice<T>(s: seq<T>, m: nat)
    requires m < |s|
    ensures s[m..] == s[..|s| - 1][m..] + [s[|s| - 1]]
  {
  }
}
