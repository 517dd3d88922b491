/**
 * Order-preserving selection from a sequence. pandas' `dropna`,
 * `drop_duplicates` and boolean-mask indexing all return the rows of a frame
 * at the positions a test accepts, in their original order; the test may
 * look at the rows before the one being tested (`drop_duplicates` does).
 * After `reset_index(drop=True)` the kept rows are numbered from zero, which
 * is what a Dafny sequence does anyway.
 */
module Selection {

  /** Whether the element at some position is kept, given the elements before it. */
  type Test<!T> = (seq<T>, T) -> bool

  predicate Increasing(idx: seq<nat>) {
    forall a, b :: 0 <= a < b < |idx| ==> idx[a] < idx[b]
  }

  predicate NoDuplicates<T(==)>(s: seq<T>) {
    forall a, b :: 0 <= a < b < |s| ==> s[a] != s[b]
  }

  /** The positions `i` of `s`, in increasing order, at which `keep(s[..i], s[i])` holds. */
  function Kept<T>(s: seq<T>, keep: Test<T>): (idx: seq<nat>)
    ensures |idx| <= |s|
    ensures forall k :: 0 <= k < |idx| ==> idx[k] < |s|
    ensures Increasing(idx)
  {
    if s == [] then []
    else
      var n := |s| - 1;
      Kept(s[..n], keep) + (if keep(s[..n], s[n]) then [n] else [])
  }

  /** The elements of `s` that `keep` accepts, in their original order. */
  function Select<T>(s: seq<T>, keep: Test<T>): (r: seq<T>)
  {
    if s == [] then []
    else
      var n := |s| - 1;
      Select(s[..n], keep) + (if keep(s[..n], s[n]) then [s[n]] else [])
  }

  /** A position is kept exactly when the test accepts it. */
  lemma {:induction false} KeptExactly<T>(s: seq<T>, keep: Test<T>, i: nat)
    requires i < |s|
    ensures i in Kept(s, keep) <==> keep(s[..i], s[i])
    decreases |s|
  {
    var n := |s| - 1;
    if i < n {
      KeptExactly(s[..n], keep, i);
      assert s[..n][..i] == s[..i];
    }
  }

  /** `Select` returns the elements at the `Kept` positions: the selection is
      an order-preserving subsequence of its input. */
  lemma {:induction false} SelectAt<T>(s: seq<T>, keep: Test<T>)
    ensures |Select(s, keep)| == |Kept(s, keep)|
    ensures forall k :: 0 <= k < |Select(s, keep)| ==> Select(s, keep)[k] == s[Kept(s, keep)[k]]
    decreases |s|
  {
    if s != [] {
      var n := |s| - 1;
      SelectAt(s[..n], keep);
    }
  }

  /** Every selected element comes from the input. */
  lemma SelectSubset<T>(s: seq<T>, keep: Test<T>, x: T)
    requires x in Select(s, keep)
    ensures x in s
  {
    SelectAt(s, keep);
    var k :| 0 <= k < |Select(s, keep)| && Select(s, keep)[k] == x;
  }

  /** A test that accepts every position selects the whole sequence. */
  lemma {:induction false} SelectAll<T>(s: seq<T>, keep: Test<T>)
    requires forall i :: 0 <= i < |s| ==> keep(s[..i], s[i])
    ensures Select(s, keep) == s
    decreases |s|
  {
    if s != [] {
      var n := |s| - 1;
      forall i | 0 <= i < n
        ensures keep(s[..n][..i], s[..n][i])
      {
        assert s[..n][..i] == s[..i];
      }
      SelectAll(s[..n], keep);
      assert s[..n] + [s[n]] == s;
    }
  }

  /** Selecting from a sequence without duplicates gives one without duplicates. */
  lemma SelectKeepsNoDuplicates<T>(s: seq<T>, keep: Test<T>)
    requires NoDuplicates(s)
    ensures NoDuplicates(Select(s, keep))
  {
    SelectAt(s, keep);
  }

  /** The position of the first occurrence of `x` in `s`. */
  function FirstIndex<T(==)>(s: seq<T>, x: T): (i: nat)
    requires x in s
    ensures i < |s| && s[i] == x && x !in s[..i]
  {
    if s[0] == x then 0 else FirstIndex(s[1..], x) + 1
  }

  /** Keep an element only if no earlier element equals it: the test of
      `drop_duplicates(keep='first')`. */
  function FirstOccurrence<T(==)>(): Test<T> {
    (before: seq<T>, x: T) => x !in before
  }

  /** Keep every element passing `p`, whatever precedes it: a boolean mask. */
  function Where<T>(p: T -> bool): Test<T> {
    (before: seq<T>, x: T) => p(x)
  }

  /** The result of `drop_duplicates` holds no two equal elements. */
  lemma DedupHasNoDuplicates<T>(s: seq<T>)
    ensures NoDuplicates(Select(s, FirstOccurrence()))
  {
    var keep := FirstOccurrence<T>();
    SelectAt(s, keep);
    var r, idx := Select(s, keep), Kept(s, keep);
    forall a, b | 0 <= a < b < |r|
      ensures r[a] != r[b]
    {
      KeptExactly(s, keep, idx[b]);
      assert s[..idx[b]][idx[a]] == s[idx[a]];
    }
  }

  /** Every input element is kept by `drop_duplicates` at its first occurrence,
      and every element that is kept was kept at its first occurrence. */
  lemma DedupKeepsFirstOccurrences<T>(s: seq<T>)
    ensures forall x :: x in Select(s, FirstOccurrence()) <==> x in s
    ensures forall i :: 0 <= i < |s| ==> (i in Kept(s, FirstOccurrence()) <==> s[i] !in s[..i])
  {
    var keep := FirstOccurrence<T>();
    SelectAt(s, keep);
    var r, idx := Select(s, keep), Kept(s, keep);
    forall i | 0 <= i < |s|
      ensures i in idx <==> s[i] !in s[..i]
    {
      KeptExactly(s, keep, i);
    }
    forall x | x in s
      ensures x in r
    {
      var i := FirstIndex(s, x);
      KeptExactly(s, keep, i);
      var k :| 0 <= k < |idx| && idx[k] == i;
      assert r[k] == x;
    }
    forall x | x in r
      ensures x in s
    {
      SelectSubset(s, keep, x);
    }
  }

  /** A mask filter keeps exactly the positions whose element passes `p`,
      every element of its result passes `p`, and it never grows the input. */
  lemma FilterExactly<T>(s: seq<T>, p: T -> bool)
    ensures forall i :: 0 <= i < |s| ==> (i in Kept(s, Where(p)) <==> p(s[i]))
    ensures forall x :: x in Select(s, Where(p)) ==> x in s && p(x)
    ensures |Select(s, Where(p))| <= |s|
  {
    var keep := Where(p);
    SelectAt(s, keep);
    forall i | 0 <= i < |s|
      ensures i in Kept(s, keep) <==> p(s[i])
    {
      KeptExactly(s, keep, i);
    }
    forall x | x in Select(s, keep)
      ensures x in s && p(x)
    {
      var r, idx := Select(s, keep), Kept(s, keep);
      var k :| 0 <= k < |r| && r[k] == x;
      KeptExactly(s, keep, idx[k]);
    }
  }
}
