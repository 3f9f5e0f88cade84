module Sequences {
  ghost predicate NoRepeat<T>(s: seq<T>) {
    forall i, j :: 0 <= i < j < |s| ==> s[i] != s[j]
  }

  /** A slice is the shorter one and its last element. */
  lemma SliceSplits<T>(s: seq<T>, lo: nat, hi: nat)
    requires lo < hi <= |s|
    ensures var t := s[lo..hi]; t[..|t| - 1] == s[lo..hi - 1] && t[|t| - 1] == s[hi - 1]
  {
  }

  lemma ConcatAssociates<T>(a: seq<T>, b: seq<T>, c: seq<T>)
    ensures (a + b) + c == a + (b + c)
  {
  }
}
