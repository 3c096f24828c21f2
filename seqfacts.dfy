/** Ordering and distinctness of sequences, and how they combine under concatenation. */
module SeqFacts {

  predicate StrictlyIncreasing(s: seq<int>)
  {
    forall a, b :: 0 <= a < b < |s| ==> s[a] < s[b]
  }

  ghost predicate Distinct<T>(s: seq<T>)
  {
    forall a, b :: 0 <= a < b < |s| ==> s[a] != s[b]
  }

  lemma IncreasingIsDistinct(s: seq<int>)
    requires StrictlyIncreasing(s)
    ensures Distinct(s)
  {
  }

  /** Appending an element larger than every element keeps a sequence strictly increasing. */
  lemma IncreasingAppend(s: seq<int>, x: int)
    requires StrictlyIncreasing(s)
    requires forall a :: 0 <= a < |s| ==> s[a] < x
    ensures StrictlyIncreasing(s + [x])
  {
  }

  /** Two distinct sequences without a common element concatenate to a distinct sequence. */
  lemma DistinctConcat<T>(s: seq<T>, t: seq<T>)
    requires Distinct(s) && Distinct(t)
    requires forall x :: x in s ==> x !in t
    ensures Distinct(s + t)
  {
    forall a, b | 0 <= a < b < |s + t|
      ensures (s + t)[a] != (s + t)[b]
    {
      if b < |s| {
      } else if a >= |s| {
        assert (s + t)[a] == t[a - |s|] && (s + t)[b] == t[b - |s|];
      } else {
        assert (s + t)[a] == s[a] && (s + t)[b] == t[b - |s|];
        assert s[a] in s && t[b - |s|] in t;
      }
    }
  }

  /** An element of a distinct sequence occurs in it exactly once. */
  lemma {:induction false} DistinctOccursOnce<T>(s: seq<T>, x: T)
    requires Distinct(s)
    ensures multiset(s)[x] == if x in s then 1 else 0
  {
    if s != [] {
      var last := s[|s| - 1];
      var init := s[..|s| - 1];
      assert s == init + [last];
      assert Distinct(init);
      DistinctOccursOnce(init, x);
      assert last !in init by {
        forall a | 0 <= a < |init| ensures init[a] != last {
          assert init[a] == s[a];
        }
      }
      assert multiset(s) == multiset(init) + multiset{last};
    }
  }

  /** The integers j with lo <= j < hi and keep(j), in increasing order. */
  function Filtered(keep: int -> bool, lo: int, hi: int): seq<int>
    decreases hi - lo
  {
    if lo >= hi then [] else (if keep(lo) then [lo] else []) + Filtered(keep, lo + 1, hi)
  }

  lemma {:induction false} FilteredSpec(keep: int -> bool, lo: int, hi: int)
    decreases hi - lo
    ensures StrictlyIncreasing(Filtered(keep, lo, hi))
    ensures forall j :: j in Filtered(keep, lo, hi) <==> (lo <= j < hi && keep(j))
  {
    if lo < hi {
      FilteredSpec(keep, lo + 1, hi);
      var rest := Filtered(keep, lo + 1, hi);
      assert forall a :: 0 <= a < |rest| ==> rest[a] in rest;
    }
  }

  /** Two strictly increasing sequences with the same elements are equal. */
  lemma {:induction false} IncreasingUnique(s: seq<int>, t: seq<int>)
    requires StrictlyIncreasing(s) && StrictlyIncreasing(t)
    requires forall x :: x in s <==> x in t
    ensures s == t
  {
    if s != [] && t != [] {
      assert s[0] in t && t[0] in s;
      assert s[0] == t[0];
      assert s == [s[0]] + s[1..] && t == [t[0]] + t[1..];
      forall x ensures x in s[1..] <==> x in t[1..] {
        if x in s[1..] {
          var a :| 0 <= a < |s[1..]| && s[1..][a] == x;
          assert s[a + 1] == x && s[0] < s[a + 1];
          assert x in t && x != t[0];
          assert x in [t[0]] + t[1..];
        }
        if x in t[1..] {
          var a :| 0 <= a < |t[1..]| && t[1..][a] == x;
          assert t[a + 1] == x && t[0] < t[a + 1];
          assert x in s && x != s[0];
          assert x in [s[0]] + s[1..];
        }
      }
      IncreasingUnique(s[1..], t[1..]);
    } else if s != [] {
      HeadIsElement(s);
      assert false;
    } else if t != [] {
      HeadIsElement(t);
      assert false;
    }
  }

  /** The position of an element in a sequence (its first occurrence). */
  function IndexOf(s: seq<int>, x: int): (k: int)
    requires x in s
    ensures 0 <= k < |s| && s[k] == x
    ensures forall a :: 0 <= a < k ==> s[a] != x
  {
    if s[0] == x then 0 else 1 + IndexOf(s[1..], x)
  }

  lemma HeadIsElement(s: seq<int>)
    ensures s != [] ==> s[0] in s
  {
  }
}
