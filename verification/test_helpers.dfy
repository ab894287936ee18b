/** The helpers the tests state their checks with: `removeDuplicates` and
    `generateLargeUserList` (tests/mock_test.go:106-127) and `slicesEqual`
    (tests/main_test.go:96-114). */
module TestHelpers {
  import opened Seqs
  import opened SetOps

  /** What `removeDuplicates` returns: the first occurrence of every element,
      in the order of those first occurrences. */
  function Dedup(s: seq<string>): seq<string>
  {
    if s == [] then []
    else
      var init := s[..|s| - 1];
      if s[|s| - 1] in init then Dedup(init) else Dedup(init) + [s[|s| - 1]]
  }

  /** `removeDuplicates`. */
  method RemoveDuplicates(slice: seq<string>) returns (result: seq<string>)
    ensures result == Dedup(slice)
  {
    var keys: map<string, bool> := map[];
    result := [];
    for i := 0 to |slice|
      invariant forall x :: Has(keys, x) <==> x in slice[..i]
      invariant result == Dedup(slice[..i])
    {
      assert slice[..i + 1] == slice[..i] + [slice[i]];
      assert slice[..i + 1][..i] == slice[..i];
      if !Has(keys, slice[i]) {
        keys := keys[slice[i] := true];
        result := result + [slice[i]];
      }
    }
    assert slice[..|slice|] == slice;
  }

  /** The result has no repeated element and has the same elements as `s`. */
  lemma {:induction false} DedupDistinctSameElements(s: seq<string>)
    ensures NoDup(Dedup(s))
    ensures Elems(Dedup(s)) == Elems(s)
  {
    if s != [] {
      var init, x := s[..|s| - 1], s[|s| - 1];
      assert s == init + [x];
      DedupDistinctSameElements(init);
      ElemsSnoc(init, x);
      if x !in init {
        ElemsSnoc(Dedup(init), x);
        NoDupSnoc(Dedup(init), x);
      }
    }
  }

  /** The result keeps the order of `s`: it is a subsequence of `s`. */
  lemma {:induction false} DedupSubsequence(s: seq<string>)
    ensures IsSubsequence(Dedup(s), s)
  {
    if s != [] {
      var init, x := s[..|s| - 1], s[|s| - 1];
      var d := Dedup(init);
      DedupSubsequence(init);
      if x in init {
        assert s == init + [x];
        SubsequenceExtend(d, init, x);
      } else {
        assert (d + [x])[..|d|] == d;
      }
    }
  }

  /** Elements are kept in the order of their first occurrences: the result
      for any prefix of `s` is a prefix of the result for `s`, and holds
      exactly the elements of that prefix. */
  lemma {:induction false} DedupFirstOccurrences(s: seq<string>, n: nat)
    requires n <= |s|
    ensures Dedup(s[..n]) <= Dedup(s)
    ensures Elems(Dedup(s[..n])) == Elems(s[..n])
    decreases |s|
  {
    DedupDistinctSameElements(s[..n]);
    if n < |s| {
      var init := s[..|s| - 1];
      assert init[..n] == s[..n];
      DedupFirstOccurrences(init, n);
    } else {
      assert s[..n] == s;
    }
  }

  /** A duplicate-free input comes back unchanged, and only such an input does. */
  lemma {:induction false} DedupFixesDistinct(s: seq<string>)
    ensures Dedup(s) == s <==> NoDup(s)
  {
    if NoDup(s) {
      DedupOfDistinct(s);
    } else {
      DedupDistinctSameElements(s);
    }
  }

  lemma {:induction false} DedupOfDistinct(s: seq<string>)
    requires NoDup(s)
    ensures Dedup(s) == s
  {
    if s != [] {
      var init, x := s[..|s| - 1], s[|s| - 1];
      assert s == init + [x];
      NoDupSnoc(init, x);
      DedupOfDistinct(init);
    }
  }

  /** The result is as long as the number of distinct elements of `s`: no
      longer than `s`, and exactly as long when `s` has no duplicates. */
  lemma DedupLength(s: seq<string>)
    ensures |Dedup(s)| == |Elems(s)|
    ensures |Dedup(s)| <= |s|
    ensures |Dedup(s)| == |s| <==> NoDup(s)
  {
    DedupDistinctSameElements(s);
    ElemsCard(Dedup(s));
    ElemsCard(s);
  }

  /** Removing duplicates twice is removing them once. */
  lemma DedupIdempotent(s: seq<string>)
    ensures Dedup(Dedup(s)) == Dedup(s)
  {
    DedupDistinctSameElements(s);
    DedupOfDistinct(Dedup(s));
  }

  /** The `i`-th generated user name: a letter from 'U' on chosen by `i` modulo
      26, a capital chosen by `i / 26` modulo 26, then "123". */
  function UserAt(i: nat): string
  {
    [('U' as int + i % 26) as char, ('A' as int + (i / 26) % 26) as char] + "123"
  }

  /** `generateLargeUserList(size)`. A negative size makes Go's `make` panic,
      so the size is a `nat` here. */
  method GenerateLargeUserList(size: nat) returns (users: seq<string>)
    ensures |users| == size
    ensures forall i :: 0 <= i < size ==> users[i] == UserAt(i)
  {
    var a := new string[size];
    for i := 0 to size
      invariant forall k :: 0 <= k < i ==> a[k] == UserAt(k)
    {
      a[i] := UserAt(i);
    }
    users := a[..];
  }

  /** The generated names for the first `n` indices: the list
      `generateLargeUserList(n)` returns. */
  function UserList(n: nat): (users: seq<string>)
    ensures |users| == n
  {
    seq(n, i requires 0 <= i < n => UserAt(i))
  }

  /** Index `i` in base 26 with two digits: `i % 676` is fixed by the two
      digits the name is built from. */
  lemma TwoDigits(i: nat)
    ensures i % 676 == 26 * ((i / 26) % 26) + i % 26
  {
    var q, r := i / 26, i % 26;
    assert i == 26 * q + r;
    var q2, r2 := q / 26, q % 26;
    assert q == 26 * q2 + r2;
    assert i == 676 * q2 + (26 * r2 + r);
    ModOf676(i, q2, 26 * r2 + r);
  }

  lemma ModOf676(i: int, q: int, s: int)
    requires i == 676 * q + s && 0 <= s < 676
    ensures i % 676 == s
  {
  }

  /** Two indices give the same name exactly when they agree modulo 676: the
      generator yields 676 distinct names and then repeats them. */
  lemma UserAtEqual(i: nat, j: nat)
    ensures UserAt(i) == UserAt(j) <==> i % 676 == j % 676
  {
    TwoDigits(i);
    TwoDigits(j);
    var a, b, c, d := (i / 26) % 26, i % 26, (j / 26) % 26, j % 26;
    if UserAt(i) == UserAt(j) {
      assert UserAt(i)[0] == UserAt(j)[0] && UserAt(i)[1] == UserAt(j)[1];
      assert b == d && a == c;
    }
    if i % 676 == j % 676 {
      assert 26 * a + b == 26 * c + d;
      assert a == c && b == d;
    }
  }

  /** A list of at most 676 generated names has no repeated name. */
  lemma UserListDistinct(n: nat)
    requires n <= 676
    ensures NoDup(UserList(n))
  {
    forall i, j | 0 <= i < j < n
      ensures UserList(n)[i] != UserList(n)[j]
    {
      UserAtEqual(i, j);
    }
  }

  /** The list for `n` is a prefix of the list for every larger `m`. */
  lemma UserListPrefix(n: nat, m: nat)
    requires n <= m
    ensures UserList(n) == UserList(m)[..n]
  {
  }

  /** `slicesEqual`: the lengths first, then the two count maps. */
  method SlicesEqual(a: seq<string>, b: seq<string>) returns (eq: bool)
    ensures |a| != |b| ==> !eq
    ensures eq <==> multiset(a) == multiset(b)
  {
    if |a| != |b| {
      assert |multiset(a)| == |a| && |multiset(b)| == |b|;
      return false;
    }
    var mapA: map<string, int> := map[];
    var mapB: map<string, int> := map[];
    for i := 0 to |a|
      invariant forall x :: x in mapA <==> x in a[..i]
      invariant forall x :: x in mapA ==> mapA[x] == multiset(a[..i])[x]
    {
      assert a[..i + 1] == a[..i] + [a[i]];
      mapA := mapA[a[i] := CountOf(mapA, a[i]) + 1];
    }
    for i := 0 to |b|
      invariant forall x :: x in mapB <==> x in b[..i]
      invariant forall x :: x in mapB ==> mapB[x] == multiset(b[..i])[x]
    {
      assert b[..i + 1] == b[..i] + [b[i]];
      mapB := mapB[b[i] := CountOf(mapB, b[i]) + 1];
    }
    assert a[..|a|] == a && b[..|b|] == b;
    eq := mapA == mapB;
    CountMapsAgree(mapA, mapB, a, b);
  }

  /** Two count maps, each holding exactly the multiplicities of its list,
      are equal exactly when the lists are equal as multisets. */
  lemma CountMapsAgree(mapA: map<string, int>, mapB: map<string, int>, a: seq<string>, b: seq<string>)
    requires forall x :: x in mapA <==> x in a
    requires forall x :: x in mapA ==> mapA[x] == multiset(a)[x]
    requires forall x :: x in mapB <==> x in b
    requires forall x :: x in mapB ==> mapB[x] == multiset(b)[x]
    ensures mapA == mapB <==> multiset(a) == multiset(b)
  {
    if multiset(a) == multiset(b) {
      assert mapA.Keys == mapB.Keys;
    }
    if mapA == mapB {
      assert forall x :: multiset(a)[x] == multiset(b)[x];
    }
  }

  /** Reading a `map[string]int` in Go: a missing key reads as 0. */
  function CountOf(m: map<string, int>, k: string): int
  {
    if k in m then m[k] else 0
  }
}
