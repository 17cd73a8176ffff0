/**
 * Order-preserving de-duplication, the meaning of `[...new Set(xs)]` in
 * JavaScript: the first occurrence of each element is kept, in order.
 */
module Collections {

  ghost predicate NoDup<T>(s: seq<T>) {
    forall i, j :: 0 <= i < j < |s| ==> s[i] != s[j]
  }

  /** `[...new Set(s)]`: each element once, at the place it first appears. */
  function Dedup<T(==)>(s: seq<T>): (r: seq<T>)
    ensures NoDup(r)
    ensures forall i :: 0 <= i < |r| ==> r[i] in s
    ensures forall i :: 0 <= i < |s| ==> s[i] in r
    ensures |r| <= |s|
  {
    if s == [] then []
    else
      var d := Dedup(s[..|s| - 1]);
      if s[|s| - 1] in d then d else d + [s[|s| - 1]]
  }

  /** Adding one element at the end: it is appended exactly when it is new. */
  lemma DedupSnoc<T>(s: seq<T>, x: T)
    ensures Dedup(s + [x]) == if x in s then Dedup(s) else Dedup(s) + [x]
  {
    assert (s + [x])[..|s|] == s;
  }

  /** A sequence that already has no duplicates is left as it is. */
  lemma {:induction false} DedupOfNoDup<T>(s: seq<T>)
    requires NoDup(s)
    ensures Dedup(s) == s
  {
    if s != [] {
      var n := |s|;
      assert NoDup(s[..n - 1]);
      DedupOfNoDup(s[..n - 1]);
      assert s[n - 1] !in s[..n - 1];
      assert s[..n - 1] + [s[n - 1]] == s;
    }
  }

  /** De-duplicating a prefix first does not change the result. */
  lemma {:induction false} DedupOfDedupedPrefix<T>(a: seq<T>, b: seq<T>)
    ensures Dedup(a + b) == Dedup(Dedup(a) + b)
    decreases |b|
  {
    if b == [] {
      assert a + b == a && Dedup(a) + b == Dedup(a);
      DedupOfNoDup(Dedup(a));
    } else {
      var init, y := b[..|b| - 1], b[|b| - 1];
      DedupOfDedupedPrefix(a, init);
      SplitLast(a, b);
      SplitLast(Dedup(a), b);
      DedupSnoc(a + init, y);
      DedupSnoc(Dedup(a) + init, y);
      assert y in a <==> y in Dedup(a);
    }
  }

  lemma SplitLast<T>(a: seq<T>, b: seq<T>)
    requires b != []
    ensures a + b == (a + b[..|b| - 1]) + [b[|b| - 1]]
  {
    assert b == b[..|b| - 1] + [b[|b| - 1]];
  }
}
