/** Facts about finite sequences that the list operations are stated with:
    distinctness, the set of elements, and the subsequence relation.
    Every recursive definition peels off the LAST element, because the
    programs modelled here build their results by appending at the end. */
module Seqs {

  /** No element occurs twice in `s`. */
  predicate NoDup<T(==)>(s: seq<T>)
  {
    forall i, j :: 0 <= i < j < |s| ==> s[i] != s[j]
  }

  /** The set of elements of `s`. */
  ghost function Elems<T>(s: seq<T>): set<T>
  {
    set x | x in s
  }

  /** `s` can be obtained from `t` by deleting elements: the elements of `s`
      occur in `t` in the same order (matched greedily from the back). */
  predicate IsSubsequence<T(==)>(s: seq<T>, t: seq<T>)
    decreases |t|
  {
    if s == [] then true
    else if t == [] then false
    else if s[|s| - 1] == t[|t| - 1] then IsSubsequence(s[..|s| - 1], t[..|t| - 1])
    else IsSubsequence(s, t[..|t| - 1])
  }

  /** Appending one element keeps the elements and adds the new one. */
  lemma ElemsSnoc<T>(s: seq<T>, x: T)
    ensures Elems(s + [x]) == Elems(s) + {x}
  {
    assert forall y :: y in s + [x] <==> y in s || y == x;
  }

  /** A sequence with one more element at the end is duplicate-free exactly
      when the shorter one is and the new element is not already there. */
  lemma NoDupSnoc<T>(s: seq<T>, x: T)
    ensures NoDup(s + [x]) <==> NoDup(s) && x !in s
  {
    var t := s + [x];
    if NoDup(t) {
      assert forall i, j :: 0 <= i < j < |s| ==> t[i] == s[i] && t[j] == s[j];
      assert forall i :: 0 <= i < |s| ==> t[i] == s[i] && t[i] != t[|s|];
    }
  }

  /** The number of distinct elements is at most the length, with equality
      exactly for duplicate-free sequences. */
  lemma {:induction false} ElemsCard<T>(s: seq<T>)
    ensures |Elems(s)| <= |s|
    ensures |Elems(s)| == |s| <==> NoDup(s)
  {
    if s == [] {
      assert Elems(s) == {};
    } else {
      var init, x := s[..|s| - 1], s[|s| - 1];
      assert s == init + [x];
      ElemsCard(init);
      ElemsSnoc(init, x);
      NoDupSnoc(init, x);
      if x in init {
        assert Elems(s) == Elems(init);
      } else {
        assert x !in Elems(init);
      }
    }
  }

  /** Dropping the last element of a subsequence keeps it a subsequence. */
  lemma {:induction false} SubsequenceDropLast<T>(s: seq<T>, t: seq<T>)
    requires s != [] && IsSubsequence(s, t)
    ensures IsSubsequence(s[..|s| - 1], t)
    decreases |t|, 0
  {
    var t' := t[..|t| - 1];
    assert t == t' + [t[|t| - 1]];
    if s[|s| - 1] == t[|t| - 1] {
      SubsequenceExtend(s[..|s| - 1], t', t[|t| - 1]);
    } else {
      SubsequenceDropLast(s, t');
      SubsequenceExtend(s[..|s| - 1], t', t[|t| - 1]);
    }
  }

  /** A subsequence of `t` is a subsequence of any extension of `t`. */
  lemma {:induction false} SubsequenceExtend<T>(s: seq<T>, t: seq<T>, y: T)
    requires IsSubsequence(s, t)
    ensures IsSubsequence(s, t + [y])
    decreases |t|, 1
  {
    var u := t + [y];
    assert u[..|u| - 1] == t;
    if s != [] && s[|s| - 1] == y {
      SubsequenceDropLast(s, t);
    }
  }

  /** Every element of a subsequence is an element of the whole. */
  lemma {:induction false} SubsequenceElems<T>(s: seq<T>, t: seq<T>)
    requires IsSubsequence(s, t)
    ensures Elems(s) <= Elems(t)
    decreases |t|
  {
    if s != [] {
      var t' := t[..|t| - 1];
      assert t == t' + [t[|t| - 1]];
      ElemsSnoc(t', t[|t| - 1]);
      if s[|s| - 1] == t[|t| - 1] {
        var s' := s[..|s| - 1];
        assert s == s' + [s[|s| - 1]];
        ElemsSnoc(s', s[|s| - 1]);
        SubsequenceElems(s', t');
      } else {
        SubsequenceElems(s, t');
      }
    }
  }
}
