/**
 Priority scans: walking definitions from the latest to the earliest and replacing the
 best one only by a strictly higher priority.
 */
module Scans {
  import opened Common

  function Rank<D>(priority: D -> nat, best: Option<D>): int {
    if best.Some? then priority(best.value) else 0
  }

  /** Walk `defs` back to front, starting from `best`. */
  ghost function Scan<D>(priority: D -> nat, ok: D -> bool, defs: seq<D>, best: Option<D>): Option<D> {
    if defs == [] then best
    else
      var d := defs[|defs| - 1];
      var next := if priority(d) > Rank(priority, best) && ok(d) then Some(d) else best;
      Scan(priority, ok, defs[..|defs| - 1], next)
  }

  /** `b` replaces `a` only with a strictly higher priority. */
  ghost function Better<D>(priority: D -> nat, a: Option<D>, b: Option<D>): Option<D> {
    if Rank(priority, b) > Rank(priority, a) then b else a
  }

  ghost function Own<D>(priority: D -> nat, ok: D -> bool, d: D): Option<D> {
    if ok(d) && priority(d) > 0 then Some(d) else None
  }

  lemma {:induction false} ScanFrom<D>(priority: D -> nat, ok: D -> bool, defs: seq<D>, best: Option<D>)
    ensures Scan(priority, ok, defs, best) == Better(priority, best, Scan(priority, ok, defs, None))
  {
    if defs != [] {
      var d, pre := defs[|defs| - 1], defs[..|defs| - 1];
      ScanFrom(priority, ok, pre, if priority(d) > Rank(priority, best) && ok(d) then Some(d) else best);
      ScanFrom(priority, ok, pre, Own(priority, ok, d));
    }
  }

  lemma ScanSnoc<D>(priority: D -> nat, ok: D -> bool, pre: seq<D>, d: D)
    ensures Scan(priority, ok, pre + [d], None) == Better(priority, Own(priority, ok, d), Scan(priority, ok, pre, None))
  {
    assert (pre + [d])[..|pre|] == pre;
    ScanFrom(priority, ok, pre, Own(priority, ok, d));
  }

  /**
   What a scan finds: the definition at index `i` is acceptable, none has a higher priority,
   and none registered later has the same.
   */
  ghost predicate Wins<D>(priority: D -> nat, ok: D -> bool, defs: seq<D>, i: int) {
    && 0 <= i < |defs| && ok(defs[i]) && priority(defs[i]) > 0
    && forall j :: 0 <= j < |defs| && ok(defs[j]) ==>
         priority(defs[j]) <= priority(defs[i]) && (j > i ==> priority(defs[j]) < priority(defs[i]))
  }

  lemma {:induction false} ScanFindsWinner<D>(priority: D -> nat, ok: D -> bool, defs: seq<D>)
    ensures var r := Scan(priority, ok, defs, None);
            if r.Some? then exists i :: Wins(priority, ok, defs, i) && defs[i] == r.value
            else forall d :: d in defs && ok(d) ==> priority(d) == 0
  {
    if defs != [] {
      var d, pre := defs[|defs| - 1], defs[..|defs| - 1];
      assert defs == pre + [d];
      ScanSnoc(priority, ok, pre, d);
      ScanFindsWinner(priority, ok, pre);
      var r := Scan(priority, ok, pre, None);
      if r.Some? {
        var i :| Wins(priority, ok, pre, i) && pre[i] == r.value;
        if Rank(priority, Own(priority, ok, d)) >= priority(r.value) {
          assert Wins(priority, ok, defs, |pre|);
        } else {
          assert Wins(priority, ok, defs, i);
        }
      } else if ok(d) && priority(d) > 0 {
        assert Wins(priority, ok, defs, |pre|);
      }
    }
  }

  // ----- Splitting the definitions over two layers -----

  function Only<D(!new)>(keep: D -> bool, defs: seq<D>): (r: seq<D>)
    ensures forall d :: d in r <==> d in defs && keep(d)
  {
    if defs == [] then []
    else Only(keep, defs[..|defs| - 1]) + (if keep(defs[|defs| - 1]) then [defs[|defs| - 1]] else [])
  }

  lemma OnlySnoc<D(!new)>(keep: D -> bool, pre: seq<D>, d: D)
    ensures Only(keep, pre + [d]) == Only(keep, pre) + (if keep(d) then [d] else [])
  {
    assert (pre + [d])[..|pre|] == pre;
  }

  lemma OnlyScan<D(!new)>(priority: D -> nat, ok: D -> bool, keep: D -> bool, pre: seq<D>, d: D)
    ensures Scan(priority, ok, Only(keep, pre + [d]), None) ==
            if keep(d) then Better(priority, Own(priority, ok, d), Scan(priority, ok, Only(keep, pre), None))
            else Scan(priority, ok, Only(keep, pre), None)
  {
    OnlySnoc(keep, pre, d);
    if keep(d) {
      ScanSnoc(priority, ok, Only(keep, pre), d);
    } else {
      assert Only(keep, pre) + [] == Only(keep, pre);
    }
  }

  lemma {:induction false} ScanResult<D>(priority: D -> nat, ok: D -> bool, defs: seq<D>)
    ensures var r := Scan(priority, ok, defs, None);
            r.Some? ==> r.value in defs && ok(r.value) && priority(r.value) > 0
  {
    ScanFindsWinner(priority, ok, defs);
  }

  /** How the overall result `p` relates to the results `a` and `b` of two layers. */
  ghost predicate LayerResult<D>(priority: D -> nat, inA: D -> bool, inB: D -> bool, a: Option<D>, b: Option<D>,
                                 p: Option<D>)
  {
    && (p.None? <==> a.None? && b.None?)
    && (p.Some? ==> inA(p.value) != inB(p.value) && p == if inA(p.value) then a else b)
    && Rank(priority, a) <= Rank(priority, p) && Rank(priority, b) <= Rank(priority, p)
  }

  lemma {:induction false} ScanLayers<D(!new)>(priority: D -> nat, ok: D -> bool, inA: D -> bool, inB: D -> bool,
                                               defs: seq<D>)
    requires forall d :: d in defs && ok(d) ==> inA(d) != inB(d)
    ensures LayerResult(priority, inA, inB, Scan(priority, ok, Only(inA, defs), None),
                        Scan(priority, ok, Only(inB, defs), None), Scan(priority, ok, defs, None))
  {
    if defs != [] {
      var d, pre := defs[|defs| - 1], defs[..|defs| - 1];
      assert defs == pre + [d];
      ScanLayers(priority, ok, inA, inB, pre);
      OnlyScan(priority, ok, inA, pre, d);
      OnlyScan(priority, ok, inB, pre, d);
      ScanSnoc(priority, ok, pre, d);
      ScanResult(priority, ok, pre);
      ScanResult(priority, ok, Only(inA, pre));
      ScanResult(priority, ok, Only(inB, pre));
    }
  }

  lemma OneWinner<D>(priority: D -> nat, ok: D -> bool, defs: seq<D>, i: int, j: int)
    requires Wins(priority, ok, defs, i) && Wins(priority, ok, defs, j)
    ensures i == j
  {
  }

  /** An acceptable definition of the highest priority, if there is an acceptable one at all. */
  ghost predicate Highest<D(!new)>(priority: D -> nat, ok: D -> bool, defs: seq<D>, r: Option<D>) {
    && (r.Some? ==> r.value in defs && ok(r.value))
    && forall d :: d in defs && ok(d) ==> r.Some? && priority(r.value) >= priority(d)
  }

  lemma ScanIsHighest<D(!new)>(priority: D -> nat, ok: D -> bool, defs: seq<D>)
    requires forall d :: d in defs && ok(d) ==> priority(d) > 0
    ensures Highest(priority, ok, defs, Scan(priority, ok, defs, None))
  {
    ScanFindsWinner(priority, ok, defs);
  }

  /** So is what two layers in turn find. */
  lemma LayersFindHighest<D(!new)>(priority: D -> nat, ok: D -> bool, inA: D -> bool, inB: D -> bool, defs: seq<D>)
    requires forall d :: d in defs && ok(d) ==> inA(d) != inB(d)
    requires forall d :: d in defs && ok(d) ==> priority(d) > 0
    ensures Highest(priority, ok, defs, Scan(priority, ok, Only(inB, defs), Scan(priority, ok, Only(inA, defs), None)))
  {
    ScanFrom(priority, ok, Only(inB, defs), Scan(priority, ok, Only(inA, defs), None));
    ScanLayers(priority, ok, inA, inB, defs);
    ScanIsHighest(priority, ok, defs);
    ScanResult(priority, ok, Only(inA, defs));
    ScanResult(priority, ok, Only(inB, defs));
  }

  /** The winner is in layer B, and layer A holds an acceptable definition of its priority. */
  ghost predicate Overtaken<D>(priority: D -> nat, ok: D -> bool, inA: D -> bool, inB: D -> bool, defs: seq<D>, i: int,
                               k: int)
  {
    && Wins(priority, ok, defs, i) && inB(defs[i])
    && 0 <= k < |defs| && ok(defs[k]) && inA(defs[k]) && priority(defs[k]) == priority(defs[i])
  }

  /** The last acceptable definition. */
  ghost predicate Last<D>(ok: D -> bool, defs: seq<D>, i: int) {
    && 0 <= i < |defs| && ok(defs[i])
    && forall j :: i < j < |defs| ==> !ok(defs[j])
  }

  /** Where all acceptable definitions have one priority, the last of them wins. */
  lemma FlatWinner<D>(priority: D -> nat, ok: D -> bool, defs: seq<D>, p: nat, i: int)
    requires p > 0 && forall d :: d in defs && ok(d) ==> priority(d) == p
    ensures Wins(priority, ok, defs, i) <==> Last(ok, defs, i)
  {
  }

  /** The last acceptable definition is in layer B, and layer A holds an acceptable one. */
  ghost predicate LastInB<D(!new)>(ok: D -> bool, inA: D -> bool, inB: D -> bool, defs: seq<D>) {
    (exists i :: Last(ok, defs, i) && inB(defs[i])) && (exists d :: d in defs && ok(d) && inA(d))
  }

  lemma FlatShadow<D(!new)>(
    priority: D -> nat, ok: D -> bool, inA: D -> bool, inB: D -> bool, defs: seq<D>, p: nat
  )
    requires p > 0 && forall d :: d in defs && ok(d) ==> priority(d) == p
    ensures WinnerShadowed(priority, ok, inA, inB, defs) <==> LastInB(ok, inA, inB, defs)
  {
    if i, k :| Overtaken(priority, ok, inA, inB, defs, i, k) {
      FlatWinner(priority, ok, defs, p, i);
      assert defs[k] in defs;
    }
    if i :| Last(ok, defs, i) && inB(defs[i]) {
      if d :| d in defs && ok(d) && inA(d) {
        var k :| 0 <= k < |defs| && defs[k] == d;
        FlatWinner(priority, ok, defs, p, i);
        assert defs[i] in defs;
        assert Overtaken(priority, ok, inA, inB, defs, i, k);
      }
    }
  }

  ghost predicate WinnerShadowed<D>(
    priority: D -> nat, ok: D -> bool, inA: D -> bool, inB: D -> bool, defs: seq<D>
  ) {
    exists i, k :: Overtaken(priority, ok, inA, inB, defs, i, k)
  }

  /** Only how the layers divide the acceptable definitions matters. */
  lemma SameShadow<D(!new)>(
    priority: D -> nat, ok: D -> bool, inA: D -> bool, inB: D -> bool, inA': D -> bool, inB': D -> bool, defs: seq<D>
  )
    requires forall d :: d in defs && ok(d) ==> (inA(d) <==> inA'(d)) && (inB(d) <==> inB'(d))
    ensures WinnerShadowed(priority, ok, inA, inB, defs) <==> WinnerShadowed(priority, ok, inA', inB', defs)
  {
    forall i, k ensures Overtaken(priority, ok, inA, inB, defs, i, k)
                        <==> Overtaken(priority, ok, inA', inB', defs, i, k) {
      if Wins(priority, ok, defs, i) && 0 <= k < |defs| && ok(defs[k]) {
        assert defs[i] in defs && defs[k] in defs;
      }
    }
  }

  lemma LayerAHolds<D(!new)>(priority: D -> nat, ok: D -> bool, inA: D -> bool, inB: D -> bool, defs: seq<D>, i: int)
    requires Wins(priority, ok, defs, i) && inB(defs[i])
    ensures var a := Scan(priority, ok, Only(inA, defs), None);
            a.Some? && priority(a.value) == priority(defs[i])
            <==> exists k :: Overtaken(priority, ok, inA, inB, defs, i, k)
  {
    var a := Scan(priority, ok, Only(inA, defs), None);
    ScanResult(priority, ok, Only(inA, defs));
    ScanFindsWinner(priority, ok, Only(inA, defs));
    if a.Some? && priority(a.value) == priority(defs[i]) {
      var k :| 0 <= k < |defs| && defs[k] == a.value;
      assert Overtaken(priority, ok, inA, inB, defs, i, k);
    }
    if k :| Overtaken(priority, ok, inA, inB, defs, i, k) {
      assert defs[k] in Only(inA, defs);
    }
  }

  /**
   Scanning layer A and then layer B finds something exactly when one scan over all does,
   and the same definition unless the winner is in layer B and overtaken from layer A.
   */
  lemma LayeredScanDiffersIff<D(!new)>(priority: D -> nat, ok: D -> bool, inA: D -> bool, inB: D -> bool, defs: seq<D>)
    requires forall d :: d in defs && ok(d) ==> inA(d) != inB(d)
    ensures var p := Scan(priority, ok, defs, None);
            var r := Scan(priority, ok, Only(inB, defs), Scan(priority, ok, Only(inA, defs), None));
            && (r.Some? <==> p.Some?)
            && (r != p <==> WinnerShadowed(priority, ok, inA, inB, defs))
  {
    var p, a := Scan(priority, ok, defs, None), Scan(priority, ok, Only(inA, defs), None);
    ScanFrom(priority, ok, Only(inB, defs), a);
    ScanLayers(priority, ok, inA, inB, defs);
    ScanResult(priority, ok, Only(inA, defs));
    ScanResult(priority, ok, Only(inB, defs));
    ScanFindsWinner(priority, ok, defs);
    if p.Some? {
      var i :| Wins(priority, ok, defs, i) && defs[i] == p.value;
      forall j | Wins(priority, ok, defs, j) ensures j == i {
        OneWinner(priority, ok, defs, i, j);
      }
      if inB(defs[i]) {
        LayerAHolds(priority, ok, inA, inB, defs, i);
      }
    }
  }
}
