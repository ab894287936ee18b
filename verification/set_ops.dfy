/** The two list operations of the membership comparison (tests/main.go):
    `difference(a, b)` keeps the members of `a` that are not in `b`, and
    `intersection(a, b)` keeps the members of `b` that are in `a`. Both build
    a `map[string]bool` of one side in a first loop, then scan the other side
    in a second loop and append what qualifies. */
module SetOps {
  import opened Seqs

  /** Reading a `map[string]bool` in Go: a missing key reads as `false`. */
  function Has(m: map<string, bool>, k: string): bool
  {
    k in m && m[k]
  }

  /** The elements `x` of `s`, in order and with their repetitions, for which
      "`x` occurs in `keys`" is `wanted`. */
  function Select(s: seq<string>, keys: seq<string>, wanted: bool): (r: seq<string>)
    ensures |r| <= |s|
  {
    if s == [] then []
    else
      var r0 := Select(s[..|s| - 1], keys, wanted);
      if (s[|s| - 1] in keys) == wanted then r0 + [s[|s| - 1]] else r0
  }

  /** What `difference(a, b)` returns: the members of `a` that are not in `b`. */
  function Minus(a: seq<string>, b: seq<string>): seq<string>
  {
    Select(a, b, false)
  }

  /** What `intersection(a, b)` returns: the members of `b` that are in `a`,
      in the order of `b` (the map is built from `a`, and `b` is scanned). */
  function Common(a: seq<string>, b: seq<string>): seq<string>
  {
    Select(b, a, true)
  }

  /** `difference(a, b)`. */
  method Difference(a: seq<string>, b: seq<string>) returns (diff: seq<string>)
    ensures diff == Minus(a, b)
  {
    var m: map<string, bool> := map[];
    for i := 0 to |b|
      invariant forall x :: Has(m, x) <==> x in b[..i]
    {
      assert b[..i + 1] == b[..i] + [b[i]];
      m := m[b[i] := true];
    }
    assert b[..|b|] == b;
    diff := [];
    for i := 0 to |a|
      invariant diff == Select(a[..i], b, false)
    {
      assert a[..i + 1][..i] == a[..i];
      if !Has(m, a[i]) {
        diff := diff + [a[i]];
      }
    }
    assert a[..|a|] == a;
  }

  /** `intersection(a, b)`. */
  method Intersection(a: seq<string>, b: seq<string>) returns (inter: seq<string>)
    ensures inter == Common(a, b)
  {
    var m: map<string, bool> := map[];
    inter := [];
    for i := 0 to |a|
      invariant forall x :: Has(m, x) <==> x in a[..i]
    {
      assert a[..i + 1] == a[..i] + [a[i]];
      m := m[a[i] := true];
    }
    assert a[..|a|] == a;
    for i := 0 to |b|
      invariant inter == Select(b[..i], a, true)
    {
      assert b[..i + 1][..i] == b[..i];
      if Has(m, b[i]) {
        inter := inter + [b[i]];
      }
    }
    assert b[..|b|] == b;
  }

  /** Each element occurs in the selection exactly as often as in `s` when
      it qualifies, and not at all otherwise. */
  lemma {:induction false} SelectCount(s: seq<string>, keys: seq<string>, wanted: bool, x: string)
    ensures multiset(Select(s, keys, wanted))[x] ==
            if (x in keys) == wanted then multiset(s)[x] else 0
  {
    if s != [] {
      var init := s[..|s| - 1];
      assert s == init + [s[|s| - 1]];
      SelectCount(init, keys, wanted, x);
    }
  }

  /** An element is selected exactly when it occurs in `s` and qualifies. */
  lemma SelectMembership(s: seq<string>, keys: seq<string>, wanted: bool)
    ensures forall x :: x in Select(s, keys, wanted) <==> x in s && (x in keys) == wanted
  {
    forall x
      ensures x in Select(s, keys, wanted) <==> x in s && (x in keys) == wanted
    {
      SelectCount(s, keys, wanted, x);
    }
  }

  /** The selection keeps the order of `s`: it is a subsequence of `s`. */
  lemma {:induction false} SelectSubsequence(s: seq<string>, keys: seq<string>, wanted: bool)
    ensures IsSubsequence(Select(s, keys, wanted), s)
  {
    if s != [] {
      var init, x := s[..|s| - 1], s[|s| - 1];
      var r0 := Select(init, keys, wanted);
      SelectSubsequence(init, keys, wanted);
      if (x in keys) == wanted {
        assert (r0 + [x])[..|r0|] == r0;
      } else {
        assert s == init + [x];
        SubsequenceExtend(r0, init, x);
      }
    }
  }

  /** The selection is all of `s` exactly when every element qualifies, and
      empty exactly when none does. */
  lemma SelectAllOrNone(s: seq<string>, keys: seq<string>, wanted: bool)
    ensures Select(s, keys, wanted) == s <==> forall i :: 0 <= i < |s| ==> (s[i] in keys) == wanted
    ensures Select(s, keys, wanted) == [] <==> forall i :: 0 <= i < |s| ==> (s[i] in keys) != wanted
  {
    SelectMembership(s, keys, wanted);
    if forall i :: 0 <= i < |s| ==> (s[i] in keys) == wanted {
      SelectWhole(s, keys, wanted);
    }
    if Select(s, keys, wanted) == s {
      assert forall i :: 0 <= i < |s| ==> s[i] in Select(s, keys, wanted);
    }
    if Select(s, keys, wanted) != [] {
      assert Select(s, keys, wanted)[0] in Select(s, keys, wanted);
    }
  }

  /** When every element qualifies, nothing is dropped. */
  lemma {:induction false} SelectWhole(s: seq<string>, keys: seq<string>, wanted: bool)
    requires forall i :: 0 <= i < |s| ==> (s[i] in keys) == wanted
    ensures Select(s, keys, wanted) == s
  {
    if s != [] {
      var init := s[..|s| - 1];
      assert forall i :: 0 <= i < |init| ==> init[i] == s[i];
      SelectWhole(init, keys, wanted);
      assert s == init + [s[|s| - 1]];
    }
  }

  /** Selecting from a duplicate-free sequence gives a duplicate-free one. */
  lemma {:induction false} SelectNoDup(s: seq<string>, keys: seq<string>, wanted: bool)
    requires NoDup(s)
    ensures NoDup(Select(s, keys, wanted))
  {
    if s != [] {
      var init, x := s[..|s| - 1], s[|s| - 1];
      assert s == init + [x];
      NoDupSnoc(init, x);
      SelectNoDup(init, keys, wanted);
      SelectMembership(init, keys, wanted);
      NoDupSnoc(Select(init, keys, wanted), x);
    }
  }

  /** A selection from `a` has no duplicates when every element repeated in
      `a` is excluded by the selection. */
  lemma {:induction false} SelectNoDupExcluded(s: seq<string>, keys: seq<string>, wanted: bool)
    requires forall i, j :: 0 <= i < j < |s| && s[i] == s[j] ==> (s[i] in keys) != wanted
    ensures NoDup(Select(s, keys, wanted))
  {
    if s != [] {
      var init, x := s[..|s| - 1], s[|s| - 1];
      assert forall i :: 0 <= i < |init| ==> init[i] == s[i];
      SelectNoDupExcluded(init, keys, wanted);
      SelectMembership(init, keys, wanted);
      NoDupSnoc(Select(init, keys, wanted), x);
    }
  }

  /** The elements of a selection, as a set. */
  lemma SelectElems(s: seq<string>, keys: seq<string>, wanted: bool)
    ensures Elems(Select(s, keys, wanted)) ==
            if wanted then Elems(s) * Elems(keys) else Elems(s) - Elems(keys)
  {
    SelectMembership(s, keys, wanted);
  }

  /** `difference(a, b)` keeps exactly the members of `a` outside `b`, as
      many times as `a` has them, in the order of `a`. */
  lemma DifferenceIsFilter(a: seq<string>, b: seq<string>)
    ensures forall x :: multiset(Minus(a, b))[x] == if x in b then 0 else multiset(a)[x]
    ensures forall x :: x in Minus(a, b) <==> x in a && x !in b
    ensures IsSubsequence(Minus(a, b), a)
    ensures |Minus(a, b)| <= |a|
  {
    forall x
      ensures multiset(Minus(a, b))[x] == if x in b then 0 else multiset(a)[x]
    {
      SelectCount(a, b, false, x);
    }
    SelectMembership(a, b, false);
    SelectSubsequence(a, b, false);
  }

  /** The boundary cases of `difference`: nothing from nothing, nothing when
      every member of `a` is in `b`, and all of `a` when the two are disjoint. */
  lemma DifferenceBoundaries(a: seq<string>, b: seq<string>)
    ensures Minus([], b) == []
    ensures Minus(a, b) == [] <==> forall i :: 0 <= i < |a| ==> a[i] in b
    ensures Minus(a, b) == a <==> forall i :: 0 <= i < |a| ==> a[i] !in b
  {
    SelectAllOrNone(a, b, false);
  }

  /** Taking the difference with the same `b` a second time changes nothing. */
  lemma DifferenceIdempotent(a: seq<string>, b: seq<string>)
    ensures Minus(Minus(a, b), b) == Minus(a, b)
  {
    SelectMembership(a, b, false);
    SelectWhole(Minus(a, b), b, false);
  }

  /** `intersection(a, b)` keeps exactly the members of `b` that are in `a`,
      as many times as `b` has them, in the order of `b`. */
  lemma IntersectionIsFilter(a: seq<string>, b: seq<string>)
    ensures forall x :: multiset(Common(a, b))[x] == if x in a then multiset(b)[x] else 0
    ensures forall x :: x in Common(a, b) <==> x in a && x in b
    ensures IsSubsequence(Common(a, b), b)
    ensures |Common(a, b)| <= |b|
  {
    forall x
      ensures multiset(Common(a, b))[x] == if x in a then multiset(b)[x] else 0
    {
      SelectCount(b, a, true, x);
    }
    SelectMembership(b, a, true);
    SelectSubsequence(b, a, true);
  }

  /** The boundary cases of `intersection`: empty when either side is empty
      or the two are disjoint, and all of `b` when every member of `b` is in `a`. */
  lemma IntersectionBoundaries(a: seq<string>, b: seq<string>)
    ensures Common([], b) == [] && Common(a, []) == []
    ensures Common(a, b) == [] <==> forall i :: 0 <= i < |b| ==> b[i] !in a
    ensures Common(a, b) == b <==> forall i :: 0 <= i < |b| ==> b[i] in a
  {
    SelectAllOrNone(b, a, true);
    SelectAllOrNone(b, [], true);
  }

  /** No member is reported both as common and as only in `a`. */
  lemma CommonAndMinusDisjoint(a: seq<string>, b: seq<string>)
    ensures forall x :: !(x in Common(a, b) && x in Minus(a, b))
  {
    SelectMembership(b, a, true);
    SelectMembership(a, b, false);
  }

  /** The three groups the report prints together count every distinct member
      of the two lists once, provided `b` has no repeated member and neither
      has the part of `a` outside `b`. */
  lemma PartitionCount(a: seq<string>, b: seq<string>)
    requires NoDup(b) && NoDup(Minus(a, b))
    ensures |Common(a, b)| + |Minus(a, b)| + |Minus(b, a)| == |Elems(a + b)|
  {
    var A, B := Elems(a), Elems(b);
    SelectNoDup(b, a, true);
    SelectNoDup(b, a, false);
    ElemsCard(Common(a, b));
    ElemsCard(Minus(a, b));
    ElemsCard(Minus(b, a));
    SelectElems(b, a, true);
    SelectElems(a, b, false);
    SelectElems(b, a, false);
    assert Elems(a + b) == A + B;
    assert B * A == A * B;
  }

  /** The same count for two duplicate-free lists. */
  lemma PartitionCountDistinct(a: seq<string>, b: seq<string>)
    requires NoDup(a) && NoDup(b)
    ensures |Common(a, b)| + |Minus(a, b)| + |Minus(b, a)| == |Elems(a + b)|
  {
    SelectNoDup(a, b, false);
    PartitionCount(a, b);
  }
}
