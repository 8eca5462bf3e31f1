/**
 Small facts about sequences of URL strings shared by the link filter and
 the crawler: duplicate-freedom, the set of elements of a sequence, the
 subsequence order, and the conversion of a set into a duplicate-free
 sequence in unspecified order.
 */
module Seqs {

  /** No element occurs twice. */
  predicate NoDup(s: seq<string>) {
    forall i, j :: 0 <= i < j < |s| ==> s[i] != s[j]
  }

  /** The elements of `s`, forgetting order and multiplicity. */
  function Elems(s: seq<string>): set<string> {
    set x | x in s
  }

  /** `sub` can be obtained from `s` by deleting elements, keeping the order of the rest. */
  predicate IsSubsequence(sub: seq<string>, s: seq<string>)
    decreases |s|
  {
    if sub == [] then true
    else if s == [] then false
    else (sub[0] == s[0] && IsSubsequence(sub[1..], s[1..])) || IsSubsequence(sub, s[1..])
  }

  /** Appending an element that is not yet present keeps a sequence duplicate-free. */
  lemma NoDupSnoc(s: seq<string>, x: string)
    requires NoDup(s) && x !in s
    ensures NoDup(s + [x])
    ensures Elems(s + [x]) == Elems(s) + {x}
  {
    var t := s + [x];
    forall i, j | 0 <= i < j < |t|
      ensures t[i] != t[j]
    {
      if j == |s| {
        assert t[i] == s[i];
      } else {
        assert t[i] == s[i] && t[j] == s[j];
      }
    }
  }

  /**
   Lists every element of a set exactly once. The order is whatever the
   choices pick, like the iteration order of a hash map.
   */
  method SetToSeq(s: set<string>) returns (r: seq<string>)
    ensures NoDup(r)
    ensures Elems(r) == s
    ensures |r| == |s|
  {
    var rest := s;
    r := [];
    while rest != {}
      invariant rest <= s
      invariant NoDup(r)
      invariant Elems(r) == s - rest
      invariant |r| + |rest| == |s|
      decreases rest
    {
      var x :| x in rest;
      NoDupSnoc(r, x);
      r := r + [x];
      rest := rest - {x};
    }
  }
}
