/** Facts about slices and concatenations of sequences. */
module Sequences {
  lemma {:induction false} SliceOfSlice<T>(s: seq<T>, i: nat, part: seq<T>, a: nat, b: nat)
    requires a <= b <= |part| && i + |part| <= |s| && s[i..i + |part|] == part
    ensures s[i + a..i + b] == part[a..b]
  {
    assert forall j {:trigger part[j]} :: a <= j < b ==> s[i + j] == s[i..i + |part|][j] == part[j];
  }

  /** Two parts standing together stand one after the other. */
  lemma {:induction false} SplitSlice<T>(s: seq<T>, i: nat, a: seq<T>, b: seq<T>)
    requires i + |a + b| <= |s| && s[i..i + |a + b|] == a + b
    ensures s[i..i + |a|] == a && s[i + |a|..i + |a| + |b|] == b
  {
    SliceOfSlice(s, i, a + b, 0, |a|);
    SliceOfSlice(s, i, a + b, |a|, |a + b|);
  }

  lemma {:induction false} Regroup<T>(a: seq<T>, b: seq<T>, c: seq<T>)
    ensures a + (b + c) == (a + b) + c
  {
  }
}
