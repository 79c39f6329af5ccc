/** Machine widths and small facts about finite sets shared by the other modules. */
module Common {
  type U8 = x: int | 0 <= x < 0x100
  type U16 = x: int | 0 <= x < 0x1_0000

  datatype Option<+T> = None | Some(value: T)

  /** A position: of a node, a block or a chunk. */
  datatype Pos = Pos(x: int, y: int, z: int)

  function Larger(a: nat, b: nat): nat {
    if a > b then a else b
  }

  ghost function Below(n: nat): (s: set<nat>)
    ensures forall i :: i in s <==> 0 <= i < n
    ensures |s| == n
  {
    if n == 0 then {} else Below(n - 1) + {n - 1}
  }

  lemma SubsetSize<T>(a: set<T>, b: set<T>)
    requires a <= b
    ensures |a| <= |b|
    ensures |a| == |b| ==> a == b
  {
    assert b == a + (b - a);
    assert |b| == |a| + |b - a|;
  }

  lemma ConsContents<T>(x: T, s: seq<T>)
    ensures multiset([x] + s) == multiset{x} + multiset(s)
  {
  }

  lemma Member<T>(s: set<T>) returns (x: T)
    requires s != {}
    ensures x in s
  {
    x :| x in s;
  }

  ghost predicate Lands(f: seq<int>, s: set<int>, u: int) {
    0 <= u < |f| && f[u] in s
  }

  ghost predicate Apart(f: seq<int>, u: int, w: int) {
    0 <= u < |f| && 0 <= w < |f| && f[u] == f[w] ==> u == w
  }

  /** If `f` maps `r` into `s` without collisions, `s` is at least as large as `r`. */
  lemma {:induction false} Pigeonhole(r: set<int>, f: seq<int>, s: set<int>)
    requires forall u {:trigger Lands(f, s, u)} :: u in r ==> Lands(f, s, u)
    requires forall u, w {:trigger Apart(f, u, w)} :: u in r && w in r ==> Apart(f, u, w)
    ensures |r| <= |s|
    decreases |r|
  {
    if r == {} {
      assert |r| == 0;
    } else {
      var x := Member(r);
      assert Lands(f, s, x);
      var r', s' := r - {x}, s - {f[x]};
      forall u | u in r' ensures Lands(f, s', u) {
        assert Lands(f, s, u) && Apart(f, x, u);
      }
      Pigeonhole(r', f, s');
      assert |r'| == |r| - 1 && |s'| == |s| - 1;
    }
  }

  /** A finite set cannot be mapped into itself injectively while missing one of its members. */
  lemma InjectionHitsAll(r: set<int>, f: seq<int>, missed: int)
    requires forall u {:trigger Lands(f, r - {missed}, u)} :: u in r ==> Lands(f, r - {missed}, u)
    requires forall u, w {:trigger Apart(f, u, w)} :: u in r && w in r ==> Apart(f, u, w)
    ensures missed !in r
  {
    Pigeonhole(r, f, r - {missed});
  }

  /** One write to an array, seen as an update of its contents. */
  method Put<T>(a: array<T>, i: int, x: T)
    requires 0 <= i < a.Length
    modifies a
    ensures a[..] == old(a[..])[i := x]
  {
    a[i] := x;
  }
}
