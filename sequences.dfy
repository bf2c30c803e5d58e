/** Sequence facts shared by the linked list and the digit functions. */
module Sequences {

  /** `s` read from its last element to its first. */
  function Reversed<A>(s: seq<A>): (r: seq<A>)
    ensures |r| == |s|
  {
    if s == [] then [] else [s[|s| - 1]] + Reversed(s[..|s| - 1])
  }

  /** Position k of the reversal holds the element k places from the end. */
  lemma {:induction false} ReversedAt<A>(s: seq<A>, k: int)
    requires 0 <= k < |s|
    ensures Reversed(s)[k] == s[|s| - 1 - k]
  {
    if k > 0 {
      ReversedAt(s[..|s| - 1], k - 1);
    }
  }

  /** Reading the reversal backwards gives the original order again. */
  lemma ReversedReversed<A>(s: seq<A>)
    ensures Reversed(Reversed(s)) == s
  {
    forall k | 0 <= k < |s|
      ensures Reversed(Reversed(s))[k] == s[k]
    {
      ReversedAt(s, |s| - 1 - k);
      ReversedAt(Reversed(s), k);
    }
  }

  /** Sequences of at most one element are their own reversal. */
  lemma ReversedShort<A>(s: seq<A>)
    requires |s| <= 1
    ensures Reversed(s) == s
  {
    if |s| == 1 {
      assert s[..0] == [];
    }
  }

  /** Reversing a suffix that starts one position earlier appends that element. */
  lemma {:induction false} ReversedSuffixStep<A>(s: seq<A>, j: int)
    requires 0 < j <= |s|
    ensures Reversed(s[j - 1..]) == Reversed(s[j..]) + [s[j - 1]]
  {
    var longer, shorter := Reversed(s[j - 1..]), Reversed(s[j..]) + [s[j - 1]];
    forall k | 0 <= k < |longer|
      ensures longer[k] == shorter[k]
    {
      ReversedAt(s[j - 1..], k);
      if k < |s| - j {
        ReversedAt(s[j..], k);
      }
    }
  }

  /** `s` without the element at position i. */
  function RemoveAt<T>(s: seq<T>, i: int): (r: seq<T>)
    requires 0 <= i < |s|
    ensures |r| == |s| - 1
    ensures forall k :: 0 <= k < i ==> r[k] == s[k]
    ensures forall k :: i <= k < |r| ==> r[k] == s[k + 1]
  {
    s[..i] + s[i + 1..]
  }

  /** `s` with `x` placed at position i, shifting what follows one place on. */
  function InsertAt<T>(s: seq<T>, i: int, x: T): (r: seq<T>)
    requires 0 <= i <= |s|
    ensures |r| == |s| + 1 && r[i] == x
    ensures forall k :: 0 <= k < i ==> r[k] == s[k]
    ensures forall k :: i < k < |r| ==> r[k] == s[k - 1]
  {
    s[..i] + [x] + s[i..]
  }

  /** No element occurs twice. */
  ghost predicate Distinct<A>(s: seq<A>) {
    forall j, k :: 0 <= j < k < |s| ==> s[j] != s[k]
  }

  /** Placing a new element anywhere in a sequence without repetitions
      keeps it without repetitions. */
  lemma DistinctInsertAt<A>(s: seq<A>, i: int, x: A)
    requires Distinct(s) && x !in s && 0 <= i <= |s|
    ensures Distinct(InsertAt(s, i, x))
  {
    var t := InsertAt(s, i, x);
    forall j, k | 0 <= j < k < |t|
      ensures t[j] != t[k]
    {
      if j == i {
        assert t[k] == s[k - 1];
      } else if k == i {
        assert t[j] == s[j];
      } else {
        assert t[j] == s[if j < i then j else j - 1];
        assert t[k] == s[if k < i then k else k - 1];
      }
    }
  }

  /** Dropping an element keeps a sequence without repetitions. */
  lemma DistinctRemoveAt<A>(s: seq<A>, i: int)
    requires Distinct(s) && 0 <= i < |s|
    ensures Distinct(RemoveAt(s, i)) && s[i] !in RemoveAt(s, i)
  {
    var t := RemoveAt(s, i);
    forall j, k | 0 <= j < k < |t|
      ensures t[j] != t[k]
    {
      assert t[j] == s[if j < i then j else j + 1];
      assert t[k] == s[if k < i then k else k + 1];
    }
    forall k | 0 <= k < |t|
      ensures t[k] != s[i]
    {
      assert t[k] == s[if k < i then k else k + 1];
    }
  }

  /** Reversal keeps a sequence without repetitions. */
  lemma DistinctReversed<A>(s: seq<A>)
    requires Distinct(s)
    ensures Distinct(Reversed(s))
  {
    var t := Reversed(s);
    forall j, k | 0 <= j < k < |t|
      ensures t[j] != t[k]
    {
      ReversedAt(s, j);
      ReversedAt(s, k);
    }
  }
}
