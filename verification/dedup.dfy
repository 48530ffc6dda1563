/**
 * First occurrences in a short sequence of handles or descriptors. Both
 * plane loops of the sender's append step (src/drmsend.c:115-120 and
 * src/drmsend.c:153-163) look for the first earlier plane holding an equal
 * value; the descriptor table grows by the number of planes that find none.
 */
module Dedup {

  /** The scan `for (j = k; j < i && s[j] != s[i]; ++j)`, from position `k`. */
  function FirstFrom(s: seq<int>, i: nat, k: nat): (j: nat)
    requires i < |s| && k <= i
    requires forall m :: 0 <= m < k ==> s[m] != s[i]
    ensures k <= j <= i && s[j] == s[i]
    ensures forall m :: 0 <= m < j ==> s[m] != s[i]
    decreases i - k
  {
    if k == i || s[k] == s[i] then k else FirstFrom(s, i, k + 1)
  }

  /** The first position holding the value at position `i`. */
  function FirstOccurrence(s: seq<int>, i: nat): (j: nat)
    requires i < |s|
    ensures j <= i && s[j] == s[i]
    ensures forall m :: 0 <= m < j ==> s[m] != s[i]
  {
    FirstFrom(s, i, 0)
  }

  /** Position `i` is the first to hold its value. */
  predicate IsFirst(s: seq<int>, i: nat)
    requires i < |s|
  {
    FirstOccurrence(s, i) == i
  }

  /** How many of the first `m` positions are first occurrences. */
  function CountFirsts(s: seq<int>, m: nat): (c: nat)
    requires m <= |s|
    ensures c <= m
  {
    if m == 0 then 0 else CountFirsts(s, m - 1) + (if IsFirst(s, m - 1) then 1 else 0)
  }

  /** The distinct values of a sequence. */
  function Values(s: seq<int>): (r: set<int>)
    ensures forall x :: x in r <==> x in s
  {
    if |s| == 0 then {} else Values(s[..|s| - 1]) + {s[|s| - 1]}
  }

  /** The first occurrences are positions 0, 1, ...: no repeat precedes a new value. */
  predicate FirstsArePrefix(s: seq<int>) {
    forall k, i :: 0 <= k < i < |s| && IsFirst(s, i) ==> IsFirst(s, k)
  }

  /** A position is a first occurrence exactly when its value is new. */
  lemma IsFirstIffNew(s: seq<int>, i: nat)
    requires i < |s|
    ensures IsFirst(s, i) <==> s[i] !in s[..i]
  {
    var j := FirstOccurrence(s, i);
    if j < i {
      assert s[..i][j] == s[i];
    }
  }

  /** The first occurrences count the distinct values. */
  lemma {:induction false} CountFirstsIsDistinct(s: seq<int>, m: nat)
    requires m <= |s|
    ensures CountFirsts(s, m) == |Values(s[..m])|
  {
    if m > 0 {
      CountFirstsIsDistinct(s, m - 1);
      IsFirstIffNew(s, m - 1);
      assert s[..m][..m - 1] == s[..m - 1];
      var before := Values(s[..m - 1]);
      assert Values(s[..m]) == before + {s[m - 1]};
      if s[m - 1] in before {
        assert before + {s[m - 1]} == before;
      }
    }
  }

  lemma {:induction false} CountFirstsMonotone(s: seq<int>, a: nat, b: nat)
    requires a <= b <= |s|
    ensures CountFirsts(s, a) <= CountFirsts(s, b)
    decreases b - a
  {
    if a < b {
      CountFirstsMonotone(s, a, b - 1);
    }
  }

  lemma {:induction false} CountFirstsBound(s: seq<int>, m: nat)
    requires m <= |s|
    ensures CountFirsts(s, m) == m ==> forall k :: 0 <= k < m ==> IsFirst(s, k)
  {
    if m > 0 {
      CountFirstsBound(s, m - 1);
    }
  }

  lemma {:induction false} CountAllFirsts(s: seq<int>, m: nat)
    requires m <= |s|
    requires forall k :: 0 <= k < m ==> IsFirst(s, k)
    ensures CountFirsts(s, m) == m
  {
    if m > 0 {
      CountAllFirsts(s, m - 1);
    }
  }

  lemma {:induction false} NoFirstsAfter(s: seq<int>, c: nat, m: nat)
    requires c <= m <= |s|
    requires forall k :: c <= k < m ==> !IsFirst(s, k)
    ensures CountFirsts(s, m) == CountFirsts(s, c)
    decreases m - c
  {
    if c < m {
      NoFirstsAfter(s, c, m - 1);
    }
  }

  /**
   * Every first-occurrence position lies below the number of distinct
   * values exactly when the first occurrences form a prefix.
   */
  lemma FirstsBelowCountIffPrefix(s: seq<int>)
    ensures (forall i :: 0 <= i < |s| ==> FirstOccurrence(s, i) < CountFirsts(s, |s|))
            <==> FirstsArePrefix(s)
  {
    var c := CountFirsts(s, |s|);
    if FirstsArePrefix(s) {
      forall i | 0 <= i < |s|
        ensures FirstOccurrence(s, i) < c
      {
        var j := FirstOccurrence(s, i);
        assert IsFirst(s, j);
        CountAllFirsts(s, j + 1);
        CountFirstsMonotone(s, j + 1, |s|);
      }
    }
    if forall i :: 0 <= i < |s| ==> FirstOccurrence(s, i) < c {
      CountFirstsBound(s, |s|);
      NoFirstsAfter(s, c, |s|);
      CountFirstsBound(s, c);
      forall k, i | 0 <= k < i < |s| && IsFirst(s, i)
        ensures IsFirst(s, k)
      {
        assert i < c;
      }
    }
  }

  /** Without repeats every position is a first occurrence and every value is distinct. */
  lemma DistinctValuesCount(s: seq<int>)
    requires forall a, b :: 0 <= a < b < |s| ==> s[a] != s[b]
    ensures |Values(s)| == |s|
  {
    forall k | 0 <= k < |s|
      ensures IsFirst(s, k)
    {
      var j := FirstOccurrence(s, k);
      assert !(j < k);
    }
    CountAllFirsts(s, |s|);
    CountFirstsIsDistinct(s, |s|);
    assert s[..|s|] == s;
  }
}
