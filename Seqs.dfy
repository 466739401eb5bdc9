/** Value helpers shared by every screen: an optional value (JavaScript's
    null/undefined) and the order-preserving filter that the screens use
    for every list they derive (`Array.prototype.filter`). */
module Seqs {

  /** A value that may be absent: `None` stands for JavaScript's null/undefined. */
  datatype Option<+T> = None | Some(value: T)

  /** `s.filter(p)`: the elements of `s` that satisfy `p`, in their original order. */
  function Filter<T>(p: T -> bool, s: seq<T>): (r: seq<T>)
    ensures |r| <= |s|
    ensures forall i :: 0 <= i < |r| ==> r[i] in s && p(r[i])
    ensures forall i :: 0 <= i < |s| && p(s[i]) ==> s[i] in r
  {
    if s == [] then [] else (if p(s[0]) then [s[0]] else []) + Filter(p, s[1..])
  }

  /** Filtering a concatenation filters each part and keeps them in order. */
  lemma {:induction false} FilterAppend<T>(p: T -> bool, a: seq<T>, b: seq<T>)
    ensures Filter(p, a + b) == Filter(p, a) + Filter(p, b)
  {
    if a == [] {
      assert a + b == b;
    } else {
      assert (a + b)[0] == a[0];
      assert (a + b)[1..] == a[1..] + b;
      FilterAppend(p, a[1..], b);
    }
  }

  /** Filtering one more element at the end appends it exactly when it passes. */
  lemma FilterSnoc<T>(p: T -> bool, s: seq<T>, x: T)
    ensures Filter(p, s + [x]) == Filter(p, s) + (if p(x) then [x] else [])
  {
    FilterAppend(p, s, [x]);
    assert [x][1..] == [];
  }

  /** The indices of the elements of `s` that satisfy `p`, in increasing order. */
  function IndicesWhere<T>(p: T -> bool, s: seq<T>): (idx: seq<nat>)
    ensures forall k :: 0 <= k < |idx| ==> idx[k] < |s| && p(s[idx[k]])
    ensures forall k, l :: 0 <= k < l < |idx| ==> idx[k] < idx[l]
    ensures forall i :: 0 <= i < |s| ==> (i in idx <==> p(s[i]))
  {
    if s == [] then []
    else
      var n := |s| - 1;
      var prev := IndicesWhere(p, s[..n]);
      assert forall i :: 0 <= i < n ==> s[..n][i] == s[i];
      prev + (if p(s[n]) then [n] else [])
  }

  /** The filter is the sequence read at those indices: it keeps exactly the
      passing elements and keeps them in their original order. */
  lemma {:induction false} FilterIsIndexed<T>(p: T -> bool, s: seq<T>)
    ensures |Filter(p, s)| == |IndicesWhere(p, s)|
    ensures forall k :: 0 <= k < |IndicesWhere(p, s)| ==> Filter(p, s)[k] == s[IndicesWhere(p, s)[k]]
  {
    if s != [] {
      var n := |s| - 1;
      FilterIsIndexed(p, s[..n]);
      assert s == s[..n] + [s[n]];
      FilterSnoc(p, s[..n], s[n]);
      assert forall i :: 0 <= i < n ==> s[..n][i] == s[i];
    }
  }
}
