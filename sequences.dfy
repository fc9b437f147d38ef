/**
 The list primitives the page-replacement policies are built from, stated on
 Dafny sequences: `list.index`, the slice `s[i:]`, `list.pop(k)` and the
 "keep the first strictly larger" scan both victim searches use.
 */
module Sequences {

  /** The index of the first occurrence of `x` in `s` (Python's `s.index(x)`). */
  function FirstIndex<T(==)>(s: seq<T>, x: T): (r: nat)
    requires x in s
    ensures r < |s| && s[r] == x
    ensures forall j :: 0 <= j < r ==> s[j] != x
  {
    if s[0] == x then 0 else 1 + FirstIndex(s[1..], x)
  }

  /** No element occurs twice. */
  predicate NoDups<T(==)>(s: seq<T>)
  {
    forall i, j :: 0 <= i < j < |s| ==> s[i] != s[j]
  }

  /**
   The slice `s[i:]` of Python: the elements from position `i` on, and the
   empty sequence once `i` runs past the end.
   */
  function Window<T>(s: seq<T>, i: nat): (w: seq<T>)
    ensures |w| == if i <= |s| then |s| - i else 0
  {
    if i <= |s| then s[i..] else []
  }

  /** `s` without the element at position `k` (Python's `s.pop(k)`). */
  function RemoveAt<T>(s: seq<T>, k: nat): (r: seq<T>)
    requires k < |s|
    ensures |r| == |s| - 1
    ensures forall j :: 0 <= j < k ==> r[j] == s[j]
    ensures forall j :: k <= j < |r| ==> r[j] == s[j + 1]
  {
    s[..k] + s[k + 1..]
  }

  /**
   The position a left-to-right scan with a strict `>` settles on: a maximum
   of `s`, and the earliest one when several positions hold the maximum.
   */
  function FirstArgMax(s: seq<int>): (k: nat)
    requires |s| > 0
    ensures k < |s|
    ensures forall j :: 0 <= j < |s| ==> s[j] <= s[k]
    ensures forall j :: 0 <= j < k ==> s[j] < s[k]
  {
    if |s| == 1 then 0
    else
      var k := FirstArgMax(s[..|s| - 1]);
      if s[|s| - 1] > s[k] then |s| - 1 else k
  }

  /** Removing one element keeps a duplicate-free sequence duplicate-free and drops exactly that element. */
  lemma RemoveAtNoDups<T>(s: seq<T>, k: nat)
    requires k < |s| && NoDups(s)
    ensures NoDups(RemoveAt(s, k))
    ensures forall x :: x in RemoveAt(s, k) <==> x in s && x != s[k]
  {
    var r := RemoveAt(s, k);
    forall x | x in s && x != s[k] ensures x in r {
      var i :| 0 <= i < |s| && s[i] == x;
      if i < k { assert r[i] == x; } else { assert r[i - 1] == x; }
    }
  }

  /** In a duplicate-free sequence `index` finds every element where it stands. */
  lemma FirstIndexNoDups<T>(s: seq<T>, k: nat)
    requires k < |s| && NoDups(s)
    ensures FirstIndex(s, s[k]) == k
  {
  }
}
