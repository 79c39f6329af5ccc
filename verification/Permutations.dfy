/** Reordering sequences: index permutations and equality of contents. */
module Permutations {
  ghost predicate Injective(p: seq<int>, n: int) {
    && (forall i :: 0 <= i < |p| ==> 0 <= p[i] < n)
    && (forall i, j :: 0 <= i < j < |p| ==> p[i] != p[j])
  }

  ghost function Pick<T>(t: seq<T>, p: seq<int>): (s: seq<T>)
    requires forall i :: 0 <= i < |p| ==> 0 <= p[i] < |t|
    ensures |s| == |p| && forall i :: 0 <= i < |p| ==> s[i] == t[p[i]]
  {
    seq(|p|, i requires 0 <= i < |p| => t[p[i]])
  }

  ghost function Without<T>(t: seq<T>, k: int): (s: seq<T>)
    requires 0 <= k < |t|
    ensures |s| == |t| - 1
    ensures multiset(t) == multiset(s) + multiset{t[k]}
  {
    assert t == t[..k] + [t[k]] + t[k + 1..];
    t[..k] + t[k + 1..]
  }

  /** The same permutation seen after dropping its last entry and that entry's target. */
  ghost function Contract(p: seq<int>, n: int): (q: seq<int>)
    requires |p| > 0
    ensures |q| == |p| - 1
  {
    var k := p[|p| - 1];
    seq(|p| - 1, i requires 0 <= i < |p| - 1 => if p[i] < k then p[i] else p[i] - 1)
  }

  lemma {:induction false} PickContents<T>(t: seq<T>, p: seq<int>)
    requires Injective(p, |t|) && |p| == |t|
    ensures multiset(Pick(t, p)) == multiset(t)
  {
    if t != [] {
      var n := |t|;
      var k := p[n - 1];
      var q, t' := Contract(p, n), Without(t, k);
      PickContents(t', q);
      assert Pick(t, p) == Pick(t', q) + [t[k]];
    } else {
      assert Pick(t, p) == [];
    }
  }

  /** Undoes `Contract`: `q` with the target `k` inserted as last entry. */
  ghost function Expand(q: seq<int>, k: int): (p: seq<int>)
    ensures |p| == |q| + 1 && p[|q|] == k
  {
    seq(|q| + 1, i requires 0 <= i < |q| + 1 => if i == |q| then k else if q[i] < k then q[i] else q[i] + 1)
  }

  lemma ExpandPicks<T>(t: seq<T>, k: int, q: seq<int>)
    requires 0 <= k < |t| && Injective(q, |t| - 1)
    ensures Injective(Expand(q, k), |t|)
    ensures Pick(t, Expand(q, k)) == Pick(Without(t, k), q) + [t[k]]
  {
  }

  lemma {:induction false} FindPermutation<T>(s: seq<T>, t: seq<T>) returns (p: seq<int>)
    requires multiset(s) == multiset(t)
    ensures |p| == |s| == |t| && Injective(p, |t|) && s == Pick(t, p)
  {
    assert |multiset(s)| == |s| && |multiset(t)| == |t|;
    if s == [] {
      p := [];
    } else {
      var n := |s|;
      var x := s[n - 1];
      assert x in multiset(t);
      var k :| 0 <= k < n && t[k] == x;
      assert s == s[..n - 1] + [x];
      assert multiset(s[..n - 1]) == multiset(s) - multiset{x} == multiset(Without(t, k));
      var q := FindPermutation(s[..n - 1], Without(t, k));
      ExpandPicks(t, k, q);
      p := Expand(q, k);
    }
  }
}
