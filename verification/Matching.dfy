/**
 The perfect-matching test used by shapeless recipes: Hopcroft and Karp's algorithm
 over 16-bit arrays, with index `|g|` as the dummy vertex.
 */
module Matching {
  import opened Common

  // Largest graph the caller may pass, and the distance that means "not reached".
  const GROUPS_MAX: int := 30000
  const INF: U16 := 0xFFFF

  type Graph = seq<seq<int>>

  /** Both sides have `|g|` vertices; `g[u]` lists the right-hand neighbours of `u`. */
  ghost predicate ValidGraph(g: Graph) {
    && |g| <= GROUPS_MAX
    && forall u, v :: 0 <= u < |g| && v in g[u] ==> 0 <= v < |g|
  }

  /** `m` assigns to every left vertex a neighbour, no two the same. */
  ghost predicate PerfectMatching(g: Graph, m: seq<int>) {
    && |m| == |g|
    && (forall u :: 0 <= u < |g| ==> m[u] in g[u])
    && (forall u, w :: 0 <= u < w < |g| ==> m[u] != m[w])
  }

  ghost predicate HasPerfectMatching(g: Graph) {
    exists m :: PerfectMatching(g, m)
  }

  // ----- The invariant of the two pairing arrays -----

  ghost predicate Forward(g: Graph, pu: seq<int>, pv: seq<int>) {
    && |pu| == |pv| == |g| + 1
    && forall u :: 0 <= u < |g| && pu[u] != |g| ==> 0 <= pu[u] < |g| && pu[u] in g[u] && pv[pu[u]] == u
  }

  /** Every paired right vertex, except possibly `hole`, is the partner of its partner. */
  ghost predicate Backward(g: Graph, pu: seq<int>, pv: seq<int>, hole: int) {
    && |pu| == |pv| == |g| + 1
    && forall v :: 0 <= v < |g| && pv[v] != |g| ==> 0 <= pv[v] < |g| && (v != hole ==> pu[pv[v]] == v)
  }

  ghost predicate Mutual(g: Graph, pu: seq<int>, pv: seq<int>) {
    ValidGraph(g) && Forward(g, pu, pv) && Backward(g, pu, pv, |g|)
  }

  // ----- Layered paths -----

  /** Distances are 0 .. |g| or infinite, so adding one never leaves 16 bits or hits INF. */
  ghost predicate Layers(g: Graph, d: seq<int>) {
    |d| == |g| + 1 && forall x :: 0 <= x <= |g| ==> 0 <= d[x] <= |g| || d[x] == INF
  }

  /** `y` is reached from `u` over one edge and lies one layer further. */
  ghost predicate Edge(g: Graph, pv: seq<int>, d: seq<int>, u: int, v: int, y: int) {
    && 0 <= u < |g| && u < |d| && v in g[u] && 0 <= v < |pv| && pv[v] == y
    && 0 <= y < |d| && y <= |g| && d[u] < INF && d[y] == d[u] + 1
  }

  /** From `x` the dummy can be reached along such edges. */
  ghost predicate Layered(g: Graph, pv: seq<int>, d: seq<int>, x: int)
    decreases INF - (if 0 <= x < |d| then d[x] else 0)
  {
    x == |g| || exists v, y :: Edge(g, pv, d, x, v, y) && Layered(g, pv, d, y)
  }

  /** `d1` differs from `d0` only in vertices wiped out because no layered path leaves them. */
  ghost predicate Erased(g: Graph, pv: seq<int>, d0: seq<int>, d1: seq<int>) {
    && |pv| == |d0| == |d1| == |g| + 1
    && forall x :: 0 <= x <= |g| ==> d1[x] == d0[x] || (d1[x] == INF && !Layered(g, pv, d0, x))
  }

  lemma {:induction false} LayeredSurvives(g: Graph, pv: seq<int>, d0: seq<int>, d1: seq<int>, x: int)
    requires Erased(g, pv, d0, d1) && Layered(g, pv, d0, x)
    ensures Layered(g, pv, d1, x)
    decreases INF - (if 0 <= x < |d0| then d0[x] else 0)
  {
    if x != |g| {
      var v, y :| Edge(g, pv, d0, x, v, y) && Layered(g, pv, d0, y);
      LayeredSurvives(g, pv, d0, d1, y);
      assert Edge(g, pv, d1, x, v, y);
    }
  }

  lemma ErasedTrans(g: Graph, pv: seq<int>, d0: seq<int>, d1: seq<int>, d2: seq<int>)
    requires Erased(g, pv, d0, d1) && Erased(g, pv, d1, d2)
    ensures Erased(g, pv, d0, d2)
  {
    forall x | 0 <= x <= |g| && d2[x] != d0[x] ensures d2[x] == INF && !Layered(g, pv, d0, x) {
      if Layered(g, pv, d0, x) {
        LayeredSurvives(g, pv, d0, d1, x);
      }
    }
  }

  // ----- Breadth-first search -----

  /** `x` is an unmatched start, or was reached from a vertex one layer nearer. */
  ghost predicate HasOrigin(g: Graph, pu: seq<int>, pv: seq<int>, d: seq<int>, x: int) {
    || (0 <= x < |d| && d[x] == 0 && x < |g| && x < |pu| && pu[x] == |g|)
    || exists p, v :: Edge(g, pv, d, p, v, x)
  }

  ghost predicate Rooted(g: Graph, pu: seq<int>, pv: seq<int>, d: seq<int>) {
    && |d| == |g| + 1
    && forall x {:trigger HasOrigin(g, pu, pv, d, x)} ::
         0 <= x <= |g| && d[x] != INF ==> HasOrigin(g, pu, pv, d, x)
  }

  ghost function Finite(d: seq<int>): (s: set<int>)
    ensures s <= Below(|d|) && |s| <= |d|
  {
    var s := set x | x in Below(|d|) && d[x] != INF;
    SubsetSize(s, Below(|d|));
    s
  }

  /** What the search keeps: reached vertices have an origin and small distances. */
  ghost predicate Searching(g: Graph, pu: seq<int>, pv: seq<int>, d: seq<int>) {
    && Mutual(g, pu, pv) && |d| == |g| + 1
    && (forall x :: 0 <= x <= |g| && d[x] != INF ==> 0 <= d[x] < |Finite(d)|)
    && Rooted(g, pu, pv, d)
  }

  ghost predicate Reached(pv: seq<int>, d: seq<int>, v: int) {
    0 <= v < |pv| && 0 <= pv[v] < |d| && d[pv[v]] != INF
  }

  ghost predicate ClosedAt(g: Graph, pv: seq<int>, d: seq<int>, u: int) {
    && 0 <= u < |g| && |pv| == |d| == |g| + 1
    && forall j :: 0 <= j < |g[u]| ==> Reached(pv, d, g[u][j])
  }

  /** What the search establishes. */
  ghost predicate Searched(g: Graph, pu: seq<int>, pv: seq<int>, d: seq<int>) {
    && Mutual(g, pu, pv) && Layers(g, d)
    && (forall u :: 0 <= u < |g| && pu[u] == |g| ==> d[u] == 0)
    && Rooted(g, pu, pv, d)
    && (d[|g|] == INF ==> forall u :: 0 <= u < |g| && d[u] != INF ==> ClosedAt(g, pv, d, u))
  }

  lemma Reach(g: Graph, pu: seq<int>, pv: seq<int>, d: seq<int>, u: int, v: int)
    requires Searching(g, pu, pv, d) && 0 <= u < |g| && d[u] != INF
    requires v in g[u] && d[pv[v]] == INF
    ensures Searching(g, pu, pv, d[pv[v] := d[u] + 1])
    ensures |Finite(d[pv[v] := d[u] + 1])| == |Finite(d)| + 1
  {
    var x := pv[v];
    var d' := d[x := d[u] + 1];
    assert Finite(d') == Finite(d) + {x};
    assert Edge(g, pv, d', u, v, x);
    forall y | 0 <= y <= |g| && d'[y] != INF && y != x ensures HasOrigin(g, pu, pv, d', y) {
      assert HasOrigin(g, pu, pv, d, y);
      if !(d[y] == 0 && y < |g| && pu[y] == |g|) {
        var p, w :| Edge(g, pv, d, p, w, y);
        assert Edge(g, pv, d', p, w, y);
      }
    }
  }

  /** From `d0` and `q0` the search has gone on to `d1` and `q1`. */
  ghost predicate Grown(d0: seq<int>, d1: seq<int>, q0: seq<int>, q1: seq<int>) {
    && |d0| == |d1| && q0 <= q1
    && (forall x :: 0 <= x < |d0| && d0[x] != INF ==> d1[x] == d0[x])
    && (forall x :: x in q1 && x !in q0 ==> 0 <= x < |d0| && d1[x] != INF)
    && (forall x :: 0 <= x < |d0| && d0[x] == INF && d1[x] != INF ==> x in q1)
    && (|Finite(d1)| > |Finite(d0)| || (|Finite(d1)| == |Finite(d0)| && q1 == q0))
  }

  /** The inner loop of the search: visit the partners of the neighbours of `u`. */
  method Expand(g: Graph, pairV: array<U16>, dist: array<U16>, u: int, queue: seq<int>, ghost pu: seq<int>)
    returns (queue': seq<int>)
    requires pairV.Length == dist.Length == |g| + 1 && dist != pairV
    requires Searching(g, pu, pairV[..], dist[..])
    requires 0 <= u < |g| && dist[u] != INF
    modifies dist
    ensures Searching(g, pu, pairV[..], dist[..])
    ensures ClosedAt(g, pairV[..], dist[..], u)
    ensures Grown(old(dist[..]), dist[..], queue, queue')
  {
    ghost var pv, d0 := pairV[..], dist[..];
    queue' := queue;
    for i := 0 to |g[u]|
      invariant pairV[..] == pv
      invariant Searching(g, pu, pv, dist[..])
      invariant Grown(d0, dist[..], queue, queue')
      invariant forall j :: 0 <= j < i ==> Reached(pv, dist[..], g[u][j])
    {
      var v := g[u][i];
      assert v in g[u] && 0 <= v < |g|;
      var back := pairV[v];
      if dist[back] == INF {
        Reach(g, pu, pv, dist[..], u, v);
        Put(dist, back, dist[u] + 1);
        queue' := queue' + [back];
      }
    }
  }

  /** Queue all unmatched vertices at distance 0 and give every other an infinite distance. */
  method Enqueue(g: Graph, pairU: array<U16>, dist: array<U16>, ghost pv: seq<int>) returns (queue: seq<int>)
    requires pairU.Length == dist.Length == |g| + 1 && dist != pairU
    requires Mutual(g, pairU[..], pv)
    modifies dist
    ensures Searching(g, pairU[..], pv, dist[..])
    ensures forall u :: 0 <= u < |g| && pairU[u] == |g| ==> dist[u] == 0
    ensures forall x :: 0 <= x <= |g| ==> (x in queue <==> dist[x] != INF)
    ensures forall x :: x in queue ==> 0 <= x < |g|
  {
    ghost var pu := pairU[..];
    queue := [];
    for u := 0 to |g|
      invariant pairU[..] == pu
      invariant forall x :: 0 <= x < u ==> dist[x] == (if pu[x] == |g| then 0 else INF)
      invariant forall x :: 0 <= x < u ==> (x in queue <==> dist[x] == 0)
      invariant forall x :: x in queue ==> 0 <= x < u
    {
      if pairU[u] == |g| {
        dist[u] := 0;
        queue := queue + [u];
      } else {
        dist[u] := INF;
      }
    }
    dist[|g|] := INF;
    forall x | 0 <= x <= |g| && dist[x] != INF ensures 0 < |Finite(dist[..])| {
      assert x in Finite(dist[..]);
    }
  }

  method Bfs(g: Graph, pairU: array<U16>, pairV: array<U16>, dist: array<U16>) returns (reached: bool)
    requires pairU.Length == pairV.Length == dist.Length == |g| + 1 && dist != pairU && dist != pairV
    requires Mutual(g, pairU[..], pairV[..])
    modifies dist
    ensures Searched(g, pairU[..], pairV[..], dist[..])
    ensures reached <==> dist[|g|] != INF
  {
    var n := |g|;
    ghost var pu, pv := pairU[..], pairV[..];
    var queue := Enqueue(g, pairU, dist, pv);
    while queue != []
      invariant pairU[..] == pu && pairV[..] == pv
      invariant Searching(g, pu, pv, dist[..])
      invariant forall x :: x in queue ==> 0 <= x <= n && dist[x] != INF
      invariant forall u :: 0 <= u < n && pu[u] == n ==> dist[u] == 0
      invariant dist[n] == INF ==>
                  forall u :: 0 <= u < n && dist[u] != INF && u !in queue ==> ClosedAt(g, pv, dist[..], u)
      decreases n + 1 - |Finite(dist[..])|, |queue|
    {
      var u := queue[0];
      assert u in queue;
      assert forall x :: x in queue[1..] ==> x in queue;
      assert forall x :: x in queue ==> x in queue[1..] || x == u;
      queue := queue[1..];
      if dist[u] < dist[n] {
        queue := Expand(g, pairV, dist, u, queue, pu);
      }
    }
    reached := dist[n] != INF;
  }

  /** If the dummy was reached, some unmatched vertex starts a layered path to it. */
  lemma {:induction false} SomeRootLayered(g: Graph, pu: seq<int>, pv: seq<int>, d: seq<int>, x: int)
    returns (root: int)
    requires Searched(g, pu, pv, d) && 0 <= x <= |g|
    requires d[x] != INF && Layered(g, pv, d, x)
    ensures 0 <= root < |g| && pu[root] == |g| && Layered(g, pv, d, root)
    decreases d[x]
  {
    assert HasOrigin(g, pu, pv, d, x);
    if d[x] == 0 && x < |g| && pu[x] == |g| {
      root := x;
    } else {
      var p, v :| Edge(g, pv, d, p, v, x);
      assert Layered(g, pv, d, p);
      root := SomeRootLayered(g, pu, pv, d, p);
    }
  }

  // ----- Depth-first search -----

  /** What one search from `u` may change. */
  ghost predicate Frame(n: int, u: int, pu0: seq<int>, pv0: seq<int>, d0: seq<int>,
                        pu1: seq<int>, pv1: seq<int>, d1: seq<int>)
  {
    && 0 <= u <= n && |pu0| == |pv0| == |d0| == |pu1| == |pv1| == |d1| == n + 1
    && (forall x :: 0 <= x <= n && d1[x] != d0[x] ==>
          d1[x] == INF && x < n && (x == u || (d0[x] > d0[u] && pu0[x] != n)))
    && (forall v :: 0 <= v < n && pv1[v] != pv0[v] ==> 0 <= pv0[v] <= n && d0[pv0[v]] > d0[u])
    && (forall w :: 0 <= w < n && pu1[w] != pu0[w] ==> w == u || d0[w] > d0[u])
    && (forall w :: 0 <= w < n && w != u ==> (pu1[w] == n <==> pu0[w] == n))
  }

  /** Outcome of a failed search: nothing re-paired, and no layered path left `u`. */
  ghost predicate Failed(g: Graph, u: int, pu0: seq<int>, pv0: seq<int>, d0: seq<int>,
                         pu1: seq<int>, pv1: seq<int>, d1: seq<int>)
  {
    u != |g| && pu1 == pu0 && pv1 == pv0 && !Layered(g, pv0, d0, u) && Erased(g, pv0, d0, d1)
  }

  /** Outcome of a successful one: `u` has a new partner and left its old one pointing back. */
  ghost predicate Rematched(g: Graph, u: int, pu0: seq<int>, pv0: seq<int>, pu1: seq<int>, pv1: seq<int>) {
    if u == |g| then
      pu1 == pu0 && pv1 == pv0
    else
      && 0 <= u < |g| && Forward(g, pu1, pv1) && |pu0| == |g| + 1 && Backward(g, pu1, pv1, pu0[u])
      && pu1[u] != |g| && pu1[u] != pu0[u]
      && (0 <= pu0[u] < |g| ==> pv1[pu0[u]] == u)
  }

  ghost predicate DeadEnd(g: Graph, pv: seq<int>, d: seq<int>, u: int, v: int) {
    forall y :: Edge(g, pv, d, u, v, y) ==> !Layered(g, pv, d, y)
  }

  method Dfs(g: Graph, pairU: array<U16>, pairV: array<U16>, dist: array<U16>, u: int) returns (ok: bool)
    requires pairU.Length == pairV.Length == dist.Length == |g| + 1
    requires dist != pairU && dist != pairV && pairU != pairV
    requires Mutual(g, pairU[..], pairV[..]) && Layers(g, dist[..])
    requires 0 <= u <= |g| && (u < |g| ==> dist[u] != INF)
    modifies pairU, pairV, dist
    ensures Layers(g, dist[..])
    ensures Frame(|g|, u, old(pairU[..]), old(pairV[..]), old(dist[..]), pairU[..], pairV[..], dist[..])
    ensures ok ==> Rematched(g, u, old(pairU[..]), old(pairV[..]), pairU[..], pairV[..])
    ensures !ok ==> Failed(g, u, old(pairU[..]), old(pairV[..]), old(dist[..]), pairU[..], pairV[..], dist[..])
    decreases INF - dist[u]
  {
    if u == |g| {
      return true;
    }
    ghost var pu0, pv0, d0 := pairU[..], pairV[..], dist[..];
    for i := 0 to |g[u]|
      invariant pairU[..] == pu0 && pairV[..] == pv0
      invariant Layers(g, dist[..]) && dist[u] == d0[u]
      invariant Frame(|g|, u, pu0, pv0, d0, pu0, pv0, dist[..])
      invariant Erased(g, pv0, d0, dist[..])
      invariant forall j :: 0 <= j < i ==> DeadEnd(g, pv0, d0, u, g[u][j])
    {
      var v := g[u][i];
      assert v in g[u] && v < |g|;
      var back := pairV[v];
      if dist[back] == dist[u] as int + 1 {
        ghost var d1: seq<int> := dist[..];
        var found := Dfs(g, pairU, pairV, dist, back);
        if found {
          ghost var pu2: seq<int>, pv2: seq<int> := pairU[..], pairV[..];
          Augment(g, u, v, pu0, pv0, d0, d1, pu2, pv2, dist[..]);
          Put(pairV, v, u);
          Put(pairU, u, v);
          return true;
        }
        Backtrack(g, u, v, pu0, pv0, d0, d1, dist[..]);
      }
    }
    AllDead(g, u, pv0, d0, dist[..]);
    Put(dist, u, INF);
    return false;
  }

  /** Re-pairing `u` with `v` once the old partner of `v` has found another. */
  lemma Augment(g: Graph, u: int, v: int, pu0: seq<int>, pv0: seq<int>, d0: seq<int>, d1: seq<int>,
                pu2: seq<int>, pv2: seq<int>, d2: seq<int>)
    requires Mutual(g, pu0, pv0) && 0 <= u < |g| && v in g[u]
    requires Frame(|g|, u, pu0, pv0, d0, pu0, pv0, d1)
    requires d1[u] == d0[u] && d1[pv0[v]] == d1[u] + 1 && d0[u] < INF - 1
    requires Frame(|g|, pv0[v], pu0, pv0, d1, pu2, pv2, d2)
    requires Rematched(g, pv0[v], pu0, pv0, pu2, pv2)
    ensures Frame(|g|, u, pu0, pv0, d0, pu2[u := v], pv2[v := u], d2)
    ensures Rematched(g, u, pu0, pv0, pu2[u := v], pv2[v := u])
  {
    var back := pv0[v];
    assert back < |g| ==> pu0[back] == v;
    AugmentFrame(|g|, u, v, back, pu0, pv0, d0, d1, pu2, pv2, d2);
  }

  lemma AugmentFrame(n: int, u: int, v: int, back: int, pu0: seq<int>, pv0: seq<int>, d0: seq<int>, d1: seq<int>,
                     pu2: seq<int>, pv2: seq<int>, d2: seq<int>)
    requires Frame(n, u, pu0, pv0, d0, pu0, pv0, d1) && Frame(n, back, pu0, pv0, d1, pu2, pv2, d2)
    requires 0 <= u < n && 0 <= v < n && pv0[v] == back
    requires d1[u] == d0[u] && d1[back] == d1[u] + 1 && d0[u] < INF - 1
    requires back < n ==> pu0[back] != n && pu2[back] != n
    ensures Frame(n, u, pu0, pv0, d0, pu2[u := v], pv2[v := u], d2)
  {
  }

  /** After a failed search from the partner of `v`, `v` is a dead end. */
  lemma Backtrack(g: Graph, u: int, v: int, pu0: seq<int>, pv0: seq<int>, d0: seq<int>, d1: seq<int>, d2: seq<int>)
    requires Mutual(g, pu0, pv0) && 0 <= u < |g| && v in g[u]
    requires Frame(|g|, u, pu0, pv0, d0, pu0, pv0, d1) && Erased(g, pv0, d0, d1)
    requires d1[u] == d0[u] && d1[pv0[v]] == d1[u] + 1 && d0[u] < INF - 1
    requires Frame(|g|, pv0[v], pu0, pv0, d1, pu0, pv0, d2)
    requires Failed(g, pv0[v], pu0, pv0, d1, pu0, pv0, d2)
    ensures Frame(|g|, u, pu0, pv0, d0, pu0, pv0, d2) && Erased(g, pv0, d0, d2)
    ensures d2[u] == d0[u] && DeadEnd(g, pv0, d0, u, v)
  {
    var back := pv0[v];
    assert back < |g| ==> pu0[back] == v;
    if Layered(g, pv0, d0, back) {
      LayeredSurvives(g, pv0, d0, d1, back);
    }
    ErasedTrans(g, pv0, d0, d1, d2);
  }

  lemma AllDead(g: Graph, u: int, pv: seq<int>, d0: seq<int>, d1: seq<int>)
    requires 0 <= u < |g| && Erased(g, pv, d0, d1)
    requires forall j :: 0 <= j < |g[u]| ==> DeadEnd(g, pv, d0, u, g[u][j])
    ensures !Layered(g, pv, d0, u) && Erased(g, pv, d0, d1[u := INF])
  {
  }

  // ----- The whole test -----

  ghost function Matched(n: nat, pu: seq<int>): (s: set<int>)
    requires |pu| == n + 1
    ensures |s| <= n
  {
    var s := set u | u in Below(n) && pu[u] != n;
    SubsetSize(s, Below(n));
    s
  }

  lemma FullMatching(g: Graph, pu: seq<int>, pv: seq<int>)
    requires Mutual(g, pu, pv) && |Matched(|g|, pu)| == |g|
    ensures HasPerfectMatching(g)
  {
    SubsetSize(Matched(|g|, pu), Below(|g|));
    var m := pu[..|g|];
    forall u | 0 <= u < |g| ensures m[u] in g[u] && m[u] < |g| && pv[m[u]] == u {
      assert u in Below(|g|);
      assert u in Matched(|g|, pu);
    }
    assert PerfectMatching(g, m);
  }

  lemma SomeUnmatched(n: nat, pu: seq<int>) returns (u: int)
    requires |pu| == n + 1 && |Matched(n, pu)| < n
    ensures 0 <= u < n && pu[u] == n
  {
    assert Matched(n, pu) != Below(n);
    u :| u in Below(n) && u !in Matched(n, pu);
  }

  /** From `u` along `m` to the right side and back along `pv`. */
  ghost function ThereAndBack(g: Graph, pv: seq<int>, m: seq<int>): (f: seq<int>)
    requires |m| == |g|
    ensures |f| == |g|
  {
    seq(|g|, u requires 0 <= u < |m| => if 0 <= m[u] < |pv| then pv[m[u]] else |g|)
  }

  ghost function ReachedSet(g: Graph, d: seq<int>): set<int>
    requires |d| == |g| + 1
  {
    set u | u in Below(|g|) && d[u] != INF
  }

  lemma Squeezed(g: Graph, pu: seq<int>, pv: seq<int>, d: seq<int>, m: seq<int>, u: int, u0: int)
    requires Mutual(g, pu, pv) && |d| == |g| + 1 && d[|g|] == INF
    requires ClosedAt(g, pv, d, u) && |m| == |g| && m[u] in g[u]
    requires 0 <= u0 < |g| && pu[u0] == |g|
    ensures var f := ThereAndBack(g, pv, m);
            Lands(f, ReachedSet(g, d) - {u0}, u) && 0 <= f[u] < |g| && pu[f[u]] == m[u]
  {
  }

  /**
   When the search never reaches the dummy, the reached vertices have too few partners:
   following a perfect matching and then `pv` would squeeze them into themselves minus
   an unmatched one.
   */
  lemma NoPerfectMatching(g: Graph, pu: seq<int>, pv: seq<int>, d: seq<int>, u0: int, m: seq<int>)
    requires Searched(g, pu, pv, d) && d[|g|] == INF
    requires 0 <= u0 < |g| && pu[u0] == |g|
    ensures !PerfectMatching(g, m)
  {
    if PerfectMatching(g, m) {
      var r, f := ReachedSet(g, d), ThereAndBack(g, pv, m);
      forall u | u in r ensures Lands(f, r - {u0}, u) {
        Squeezed(g, pu, pv, d, m, u, u0);
      }
      forall u, w | u in r && w in r ensures Apart(f, u, w) {
        Squeezed(g, pu, pv, d, m, u, u0);
        Squeezed(g, pu, pv, d, m, w, u0);
      }
      InjectionHitsAll(r, f, u0);
    }
  }

  /**
   Within a phase: either a search has succeeded, or nothing was re-paired and every
   vertex tried so far starts no layered path.
   */
  ghost predicate InPhase(g: Graph, pu0: seq<int>, pv0: seq<int>, d0: seq<int>, num0: int,
                          pu: seq<int>, pv: seq<int>, d: seq<int>, num: int, u: int)
  {
    && Mutual(g, pu, pv) && Layers(g, d)
    && num == |Matched(|g|, pu)|
    && (forall w :: 0 <= w < |g| && u <= w && pu[w] == |g| ==> d[w] == 0)
    && (num > num0 ||
        (num == num0 && pu == pu0 && pv == pv0 && Erased(g, pv0, d0, d) &&
         forall w {:trigger Layered(g, pv0, d0, w)} :: 0 <= w < u && w < |g| && pu0[w] == |g| ==>
           !Layered(g, pv0, d0, w)))
  }

  lemma PhaseStep(g: Graph, pu0: seq<int>, pv0: seq<int>, d0: seq<int>, num0: int,
                  pu: seq<int>, pv: seq<int>, d: seq<int>, num: int, u: int,
                  pu1: seq<int>, pv1: seq<int>, d1: seq<int>, found: bool)
    requires InPhase(g, pu0, pv0, d0, num0, pu, pv, d, num, u)
    requires 0 <= u < |g| && pu[u] == |g| && Layers(g, d1)
    requires Frame(|g|, u, pu, pv, d, pu1, pv1, d1)
    requires found ==> Rematched(g, u, pu, pv, pu1, pv1)
    requires !found ==> Failed(g, u, pu, pv, d, pu1, pv1, d1)
    ensures InPhase(g, pu0, pv0, d0, num0, pu1, pv1, d1, if found then num + 1 else num, u + 1)
  {
    if found {
      assert Matched(|g|, pu1) == Matched(|g|, pu) + {u};
    } else if num == num0 {
      if Layered(g, pv0, d0, u) {
        LayeredSurvives(g, pv0, d0, d, u);
      }
      ErasedTrans(g, pv0, d0, d, d1);
    }
  }

  /**
   One phase: a depth-first search from every vertex still unmatched.  As the preceding
   breadth-first search reached the dummy, at least one of them succeeds.
   */
  method Phase(g: Graph, pairU: array<U16>, pairV: array<U16>, dist: array<U16>, numMatched: int) returns (num: int)
    requires pairU.Length == pairV.Length == dist.Length == |g| + 1
    requires dist != pairU && dist != pairV && pairU != pairV
    requires Searched(g, pairU[..], pairV[..], dist[..]) && dist[|g|] != INF
    requires numMatched == |Matched(|g|, pairU[..])|
    modifies pairU, pairV, dist
    ensures Mutual(g, pairU[..], pairV[..])
    ensures num == |Matched(|g|, pairU[..])| && num > numMatched
  {
    ghost var pu0, pv0, d0 := pairU[..], pairV[..], dist[..];
    ghost var root := SomeRootLayered(g, pu0, pv0, d0, |g|);
    num := numMatched;
    for u := 0 to |g|
      invariant InPhase(g, pu0, pv0, d0, numMatched, pairU[..], pairV[..], dist[..], num, u)
    {
      if pairU[u] == |g| {
        ghost var pu, pv, d := pairU[..], pairV[..], dist[..];
        var found := Dfs(g, pairU, pairV, dist, u);
        PhaseStep(g, pu0, pv0, d0, numMatched, pu, pv, d, num, u, pairU[..], pairV[..], dist[..], found);
        if found {
          num := num + 1;
        }
      }
    }
  }

  /** True exactly when some assignment gives every left vertex its own neighbour. */
  method CanMatchAll(g: Graph) returns (r: bool)
    requires ValidGraph(g)
    ensures r <==> HasPerfectMatching(g)
  {
    var n := |g|;
    var pairU := new U16[n + 1](_ => n);
    var pairV := new U16[n + 1](_ => n);
    var dist := new U16[n + 1](_ => 0);
    var num := 0;
    assert Matched(n, pairU[..]) == {};
    var reached := Bfs(g, pairU, pairV, dist);
    while reached
      invariant num == |Matched(n, pairU[..])|
      invariant Searched(g, pairU[..], pairV[..], dist[..])
      invariant reached <==> dist[n] != INF
      decreases n - num
    {
      num := Phase(g, pairU, pairV, dist, num);
      reached := Bfs(g, pairU, pairV, dist);
    }
    r := num == n;
    if r {
      FullMatching(g, pairU[..], pairV[..]);
    } else {
      ghost var u0 := SomeUnmatched(n, pairU[..]);
      forall m ensures !PerfectMatching(g, m) {
        NoPerfectMatching(g, pairU[..], pairV[..], dist[..], u0, m);
      }
    }
  }
}
