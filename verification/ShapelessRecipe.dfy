/**
 Shapeless recipes.  The check sorts, splits the recipe into named and group slots,
 cancels the named slots against the input, and matches only the rest; the specification
 simply asks for a one-to-one assignment of all inputs to all slots.
 */
module ShapelessRecipe {
  import opened Items
  import opened Strings
  import opened Pairings
  import Matching

  const WILD: string -> bool := slot => IsGroup(slot)

  lemma NamedSlotsAreExact(reg: Registry)
    ensures ExactUnlessWild(Ok(reg), WILD)
  {
  }

  /** Every input can have its own slot, and there are not too many group slots. */
  ghost predicate ShapelessMatches(reg: Registry, input: CraftInput, rec: seq<string>) {
    && input.kind == Normal
    && Pairable(Ok(reg), Present(Names(input.items)), rec)
    && |Part(WILD, rec, true)| <= Matching.GROUPS_MAX
  }

  // ----- The graph of the remaining inputs and slots -----

  ghost predicate Row(reg: Registry, item: string, rec: seq<string>, row: seq<int>) {
    forall j :: j in row <==> 0 <= j < |rec| && Matches(reg, item, rec[j])
  }

  ghost predicate Rows(reg: Registry, inp: seq<string>, rec: seq<string>, g: Matching.Graph) {
    |g| == |inp| == |rec| && forall i :: 0 <= i < |g| ==> Row(reg, inp[i], rec, g[i])
  }

  /** For each remaining input, the group slots it satisfies. */
  method BuildGraph(reg: Registry, inp: seq<string>, rec: seq<string>) returns (g: Matching.Graph)
    requires |inp| == |rec|
    ensures Rows(reg, inp, rec, g)
  {
    g := [];
    for i := 0 to |inp|
      invariant |g| == i
      invariant forall k :: 0 <= k < i ==> Row(reg, inp[k], rec, g[k])
    {
      var neighbors: seq<int> := [];
      for j := 0 to |rec|
        invariant forall k :: k in neighbors <==> 0 <= k < j && Matches(reg, inp[i], rec[k])
      {
        if Matches(reg, inp[i], rec[j]) {
          neighbors := neighbors + [j];
        }
      }
      assert Row(reg, inp[i], rec, neighbors);
      g := g + [neighbors];
    }
  }

  lemma GraphIsPairing(reg: Registry, inp: seq<string>, rec: seq<string>, g: Matching.Graph)
    requires Rows(reg, inp, rec, g)
    ensures Matching.HasPerfectMatching(g) <==> Pairable(Ok(reg), inp, rec)
  {
    if Matching.HasPerfectMatching(g) {
      var m :| Matching.PerfectMatching(g, m);
      forall i | 0 <= i < |g| ensures 0 <= m[i] < |rec| && Matches(reg, inp[i], rec[m[i]]) {
        assert m[i] in g[i] && Row(reg, inp[i], rec, g[i]);
      }
      assert Pairing(Ok(reg), inp, rec, m);
    }
    if Pairable(Ok(reg), inp, rec) {
      var p :| Pairing(Ok(reg), inp, rec, p);
      forall i | 0 <= i < |g| ensures p[i] in g[i] {
        assert Row(reg, inp[i], rec, g[i]);
      }
      assert Matching.PerfectMatching(g, p);
    }
  }

  method FilterPresent(items: seq<ItemStack>) returns (r: seq<string>)
    ensures r == Present(Names(items))
  {
    r := [];
    for i := 0 to |items|
      invariant r == Present(Names(items)[..i])
    {
      PartAppend(FILLED, Names(items)[..i], items[i].name, true);
      assert Names(items)[..i + 1] == Names(items)[..i] + [items[i].name];
      if items[i].name != "" {
        r := r + [items[i].name];
      }
    }
    assert Names(items)[..|items|] == Names(items);
  }

  // ----- Counting -----

  lemma Lengths(a: seq<string>, b: seq<string>, c: seq<string>)
    requires multiset(a) == multiset(b) + multiset(c)
    ensures |a| == |b| + |c|
  {
    assert |multiset(a)| == |a| && |multiset(b)| == |b| && |multiset(c)| == |c|;
  }

  /** Comparing sizes tells whether the difference really removed all of `b`. */
  lemma RemovedAll(a: seq<string>, b: seq<string>, d: seq<string>)
    requires multiset(d) == multiset(a) - multiset(b)
    ensures |a| - |d| == |b| <==> multiset(b) <= multiset(a)
  {
    var ma, mb := multiset(a), multiset(b);
    assert |ma| == |a| && |mb| == |b| && |multiset(d)| == |d|;
    assert ma == (ma - mb) + (ma * mb);
    assert mb == (mb - ma) + (ma * mb);
    if |mb - ma| == 0 {
      assert mb - ma == multiset{};
    }
  }

  // ----- The check -----

  lemma SameLength(a: seq<string>, b: seq<string>)
    requires multiset(a) == multiset(b)
    ensures |a| == |b|
  {
    Lengths(a, b, []);
  }

  lemma SortedParts(inp: seq<string>, rec: seq<string>, sorted: seq<string>, recipe: seq<string>, left: seq<string>)
    requires |inp| == |rec|
    requires sorted == Sort(inp) && recipe == Sort(rec)
    requires left == SetDifference(sorted, Part(WILD, recipe, false))
    ensures multiset(Part(WILD, recipe, true)) == multiset(Part(WILD, rec, true))
    ensures multiset(left) == multiset(inp) - multiset(Part(WILD, rec, false))
    ensures |sorted| - |left| == |Part(WILD, recipe, false)| <==> multiset(Part(WILD, rec, false)) <= multiset(inp)
  {
    var named := Part(WILD, recipe, false);
    PartSorted(WILD, recipe, false);
    SetDifferenceContents(sorted, named);
    RemovedAll(sorted, named, left);
    PartsOfArrangement(WILD, rec, recipe);
  }

  lemma CheckedParts(reg: Registry, inp: seq<string>, rec: seq<string>, sorted: seq<string>, recipe: seq<string>,
                     left: seq<string>)
    requires |inp| == |rec|
    requires sorted == Sort(inp) && recipe == Sort(rec)
    requires left == SetDifference(sorted, Part(WILD, recipe, false))
    ensures |Part(WILD, recipe, true)| == |Part(WILD, rec, true)|
    ensures Pairable(Ok(reg), inp, rec) <==>
            |sorted| - |left| == |Part(WILD, recipe, false)| && Pairable(Ok(reg), left, Part(WILD, recipe, true))
    ensures |sorted| - |left| == |Part(WILD, recipe, false)| ==> |left| == |Part(WILD, recipe, true)|
  {
    SortedParts(inp, rec, sorted, recipe, left);
    SameLength(Part(WILD, recipe, true), Part(WILD, rec, true));
    NamedSlotsAreExact(reg);
    Prefilter(Ok(reg), WILD, inp, rec);
    PairableIffAligned(Ok(reg), left, Part(WILD, recipe, true));
    PartContents(WILD, recipe);
    Lengths(recipe, Part(WILD, recipe, true), Part(WILD, recipe, false));
    SameLength(sorted, inp);
    SameLength(recipe, rec);
  }

  /** `rec` holds the recipe's item names after alias resolution. */
  method Check(reg: Registry, input: CraftInput, rec: seq<string>) returns (r: bool)
    ensures r <==> ShapelessMatches(reg, input, rec)
  {
    if input.kind != Normal {
      return false;
    }
    var inputFiltered := FilterPresent(input.items);
    ghost var inp := inputFiltered;
    if |inputFiltered| != |rec| {
      return false;
    }
    inputFiltered := Sort(inputFiltered);
    var recipe := Sort(rec);
    var named, grouped := Part(WILD, recipe, false), Part(WILD, recipe, true);
    var inputForGroup := SetDifference(inputFiltered, named);
    CheckedParts(reg, inp, rec, inputFiltered, recipe, inputForGroup);
    if |inputFiltered| - |inputForGroup| != |named| {
      return false;
    }
    if |grouped| > Matching.GROUPS_MAX {
      return false;
    }
    var g := BuildGraph(reg, inputForGroup, grouped);
    GraphIsPairing(reg, inputForGroup, grouped, g);
    forall i, j | 0 <= i < |g| && j in g[i] ensures 0 <= j < |g| {
      assert Row(reg, inputForGroup[i], grouped, g[i]);
    }
    r := Matching.CanMatchAll(g);
  }
}
