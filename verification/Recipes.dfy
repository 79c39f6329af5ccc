/** The kinds of craft definitions: when each applies, its priority and its hash. */
module Recipes {
  import opened Common
  import opened Items
  import opened Strings
  import opened Pairings
  import ShapedRecipe
  import ShapelessRecipe

  datatype Recipe =
    | Shaped(output: string, width: nat, slots: seq<string>)
    | Shapeless(output: string, slots: seq<string>)
    | ToolRepair(additionalWear: real)
    | Cook(output: string, slot: string)
    | Burn(slot: string)

  /** A registered definition; `id` stands for the identity of the object. */
  datatype Definition = Definition(id: nat, recipe: Recipe)

  function Resolve(reg: Registry, slots: seq<string>): (names: seq<string>)
    ensures |names| == |slots| && forall i :: 0 <= i < |slots| ==> names[i] == reg.Alias(slots[i])
  {
    seq(|slots|, i requires 0 <= i < |slots| => reg.Alias(slots[i]))
  }

  predicate HasGroup(slots: seq<string>) {
    exists s :: s in slots && IsGroup(s)
  }

  function SlotsOf(r: Recipe): seq<string> {
    match r
    case Shaped(_, _, slots) => slots
    case Shapeless(_, slots) => slots
    case ToolRepair(_) => []
    case Cook(_, slot) => [slot]
    case Burn(slot) => [slot]
  }

  /** No slot becomes, or stops being, a group slot through an alias. */
  ghost predicate GroupsStable(reg: Registry, r: Recipe) {
    forall s :: s in SlotsOf(r) ==> (IsGroup(s) <==> IsGroup(reg.Alias(s)))
  }

  // ----- Priority, fixed when the definition is made -----

  /** For fuel the name looked at is still empty at that moment, so it never counts as a group. */
  function Priority(r: Recipe): nat {
    match r
    case ToolRepair(_) => 1
    case Shapeless(_, slots) => if HasGroup(slots) then 2 else 3
    case Cook(_, slot) => if IsGroup(slot) then 2 else 3
    case Burn(_) => 3
    case Shaped(_, _, slots) => if HasGroup(slots) then 4 else 5
  }

  // ----- When a definition applies -----

  const NON_EMPTY: ItemStack -> bool := (s: ItemStack) => !s.Empty()

  function OccupiedStacks(items: seq<ItemStack>): seq<ItemStack> {
    Part(NON_EMPTY, items, true)
  }

  /** Two single, equally named, repairable tools whose joint wear leaves something over. */
  predicate CanRepair(reg: Registry, a: ItemStack, b: ItemStack, additionalWear: real) {
    && a.count == 1 && b.count == 1 && a.name == b.name
    && reg.Get(a.name).isTool && GroupRating(reg.Get(a.name).groups, "disable_repair") != 1
    && 65536 - ((65536 - a.wear) + (65536 - b.wear)) + (additionalWear * 65536.0 + 0.5).Floor < 65536
  }

  predicate RepairMatches(reg: Registry, input: CraftInput, additionalWear: real) {
    var s := OccupiedStacks(input.items);
    input.kind == Normal && |s| == 2 && CanRepair(reg, s[0], s[1], additionalWear)
  }

  predicate SingleMatches(reg: Registry, input: CraftInput, kind: CraftMethod, slot: string) {
    var names := Present(Names(input.items));
    input.kind == kind && |names| == 1 && Matches(reg, names[0], reg.Alias(slot))
  }

  ghost predicate Applies(reg: Registry, input: CraftInput, r: Recipe) {
    match r
    case Shaped(_, width, slots) => ShapedRecipe.ShapedMatches(reg, input, Resolve(reg, slots), width)
    case Shapeless(_, slots) => ShapelessRecipe.ShapelessMatches(reg, input, Resolve(reg, slots))
    case ToolRepair(wear) => RepairMatches(reg, input, wear)
    case Cook(_, slot) => SingleMatches(reg, input, Cooking, slot)
    case Burn(slot) => SingleMatches(reg, input, Fuel, slot)
  }

  /** The one or two occupied stacks, or more than two. */
  function Pair(item1: ItemStack, item2: ItemStack): seq<ItemStack> {
    if item1.Empty() then [] else if item2.Empty() then [item1] else [item1, item2]
  }

  /** The next occupied stack joins the pair, or does not fit any more. */
  lemma PairGrows(items: seq<ItemStack>, i: nat, item1: ItemStack, item2: ItemStack)
    requires i < |items| && !items[i].Empty()
    requires OccupiedStacks(items[..i]) == Pair(item1, item2) && (item1.Empty() ==> item2.Empty())
    ensures item1.Empty() ==> OccupiedStacks(items[..i + 1]) == Pair(items[i], item2)
    ensures !item1.Empty() && item2.Empty() ==> OccupiedStacks(items[..i + 1]) == Pair(item1, items[i])
    ensures !item2.Empty() ==> |OccupiedStacks(items)| > 2
  {
    PartAppend(NON_EMPTY, items[..i], items[i], true);
    assert items[..i + 1] == items[..i] + [items[i]];
    PartPrefix(NON_EMPTY, items, i + 1, true);
  }

  lemma PairStays(items: seq<ItemStack>, i: nat)
    requires i < |items| && items[i].Empty()
    ensures OccupiedStacks(items[..i + 1]) == OccupiedStacks(items[..i])
  {
    PartAppend(NON_EMPTY, items[..i], items[i], true);
    assert items[..i + 1] == items[..i] + [items[i]];
  }

  method CollectTwo(items: seq<ItemStack>) returns (more: bool, item1: ItemStack, item2: ItemStack)
    ensures more ==> |OccupiedStacks(items)| > 2
    ensures !more ==> OccupiedStacks(items) == Pair(item1, item2) && (item1.Empty() ==> item2.Empty())
  {
    more := false;
    item1, item2 := EMPTY_STACK, EMPTY_STACK;
    for i := 0 to |items|
      invariant OccupiedStacks(items[..i]) == Pair(item1, item2)
      invariant item1.Empty() ==> item2.Empty()
    {
      var item := items[i];
      if item.Empty() {
        PairStays(items, i);
      } else {
        PairGrows(items, i, item1, item2);
        if item1.Empty() {
          item1 := item;
        } else if item2.Empty() {
          item2 := item;
        } else {
          more := true;
          return;
        }
      }
    }
    assert items[..|items|] == items;
  }

  method CheckRepair(reg: Registry, input: CraftInput, additionalWear: real) returns (r: bool)
    ensures r <==> RepairMatches(reg, input, additionalWear)
    ensures r ==> input.kind == Normal && |OccupiedStacks(input.items)| == 2
    ensures var s := OccupiedStacks(input.items);
            input.kind == Normal && |s| == 2 ==>
              (r <==> s[0].name == s[1].name && s[0].count == s[1].count == 1
                      && reg.Get(s[0].name).isTool && GroupRating(reg.Get(s[0].name).groups, "disable_repair") != 1
                      && (additionalWear * 65536.0 + 0.5).Floor < (65536 - s[0].wear) + (65536 - s[1].wear))
  {
    if input.kind != Normal {
      return false;
    }
    var more, item1, item2 := CollectTwo(input.items);
    r := !more && CanRepair(reg, item1, item2, additionalWear);
  }

  method CheckSingle(reg: Registry, input: CraftInput, kind: CraftMethod, slot: string) returns (r: bool)
    ensures r <==> SingleMatches(reg, input, kind, slot)
  {
    if input.kind != kind {
      return false;
    }
    var inputFiltered := ShapelessRecipe.FilterPresent(input.items);
    if |inputFiltered| != 1 {
      return false;
    }
    r := Matches(reg, inputFiltered[0], reg.Alias(slot));
  }

  method Check(reg: Registry, input: CraftInput, d: Recipe) returns (r: bool)
    requires HandInNoGroup(reg)
    ensures r <==> Applies(reg, input, d)
  {
    match d
    case Shaped(_, width, slots) => r := ShapedRecipe.Check(reg, input, Resolve(reg, slots), width);
    case Shapeless(_, slots) => r := ShapelessRecipe.Check(reg, input, Resolve(reg, slots));
    case ToolRepair(wear) => r := CheckRepair(reg, input, wear);
    case Cook(_, slot) => r := CheckSingle(reg, input, Cooking, slot);
    case Burn(slot) => r := CheckSingle(reg, input, Fuel, slot);
  }

  /** Name of the item a craft would yield; a definition yielding an unknown item is ignored. */
  function OutputName(input: CraftInput, r: Recipe): string {
    match r
    case Shaped(output, _, _) => output
    case Shapeless(output, _) => output
    case ToolRepair(_) => if OccupiedStacks(input.items) == [] then "" else OccupiedStacks(input.items)[0].name
    case Cook(output, _) => output
    case Burn(_) => ""
  }

  // ----- Hashes -----

  datatype HashType = ItemNames | Count | Unhashed

  function Join(names: seq<string>): string {
    if names == [] then "" else if |names| == 1 then names[0] else names[0] + "\n" + Join(names[1..])
  }

  /** `hash` stands for the 64-bit string hash; nothing is assumed about it. */
  function GridHash(hash: string -> int, kind: HashType, grid: seq<string>): int {
    match kind
    case ItemNames => hash(Join(Present(grid)))
    case Count => |Present(grid)|
    case Unhashed => 0
  }

  function HashTypeOf(reg: Registry, r: Recipe): HashType {
    match r
    case ToolRepair(_) => Count
    case _ => if HasGroup(Resolve(reg, SlotsOf(r))) then Count else ItemNames
  }

  function HashOf(reg: Registry, hash: string -> int, kind: HashType, r: Recipe): int {
    match r
    case Shaped(_, _, slots) => GridHash(hash, kind, Sort(Resolve(reg, slots)))
    case Shapeless(_, slots) => GridHash(hash, kind, Sort(Resolve(reg, slots)))
    case ToolRepair(_) => 2
    case Cook(_, slot) => if kind == ItemNames then hash(reg.Alias(slot)) else 1
    case Burn(slot) => if kind == ItemNames then hash(reg.Alias(slot)) else 1
  }

  function Probe(hash: string -> int, kind: HashType, input: CraftInput): int {
    GridHash(hash, kind, Sort(Names(input.items)))
  }

  // ----- An applicable definition is always found under its hash -----

  /** Sorting first makes the order of the grid irrelevant. */
  lemma PresentSorted(a: seq<string>)
    ensures multiset(Present(Sort(a))) == multiset(Present(a)) && Sorted(Present(Sort(a)))
  {
    PartsOfArrangement(FILLED, a, Sort(a));
    PartSorted(FILLED, Sort(a), true);
  }

  lemma SameContentsSameHash(hash: string -> int, kind: HashType, a: seq<string>, b: seq<string>)
    requires multiset(Present(a)) == multiset(Present(b))
    ensures GridHash(hash, kind, Sort(a)) == GridHash(hash, kind, Sort(b))
  {
    PresentSorted(a);
    PresentSorted(b);
    SortedUnique(Present(Sort(a)), Present(Sort(b)));
  }

  lemma SameSizeSameCount(hash: string -> int, a: seq<string>, b: seq<string>)
    requires |Present(a)| == |Present(b)|
    ensures GridHash(hash, Count, Sort(a)) == GridHash(hash, Count, Sort(b))
  {
    PresentSorted(a);
    PresentSorted(b);
    ShapelessRecipe.SameLength(Present(Sort(a)), Present(a));
    ShapelessRecipe.SameLength(Present(Sort(b)), Present(b));
  }

  /** Indices of the cells whose content satisfies `p`. */
  ghost function Where(names: seq<string>, p: string -> bool): (s: set<int>)
    ensures forall j :: j in s <==> 0 <= j < |names| && p(names[j])
  {
    set j | j in Below(|names|) && p(names[j])
  }

  /** Where the translation sends cell `j` of a grid of width `aw`, in a grid of width `bw`. */
  function Image(j: int, aw: nat, bw: nat, dx: int, dy: int): int
    requires aw > 0
  {
    (j / aw + dy) * bw + (j % aw + dx)
  }

  lemma ImageLands(a: seq<string>, aw: nat, b: seq<string>, bw: nat, dx: int, dy: int, p: string -> bool, j: int)
    requires aw > 0 && bw > 0 && !p("") && 0 <= j < |a|
    requires p(ShapedRecipe.Cell(b, bw, j % aw + dx, j / aw + dy))
    ensures 0 <= Image(j, aw, bw, dx, dy) < |b| && p(b[Image(j, aw, bw, dx, dy)])
    ensures Image(j, aw, bw, dx, dy) % bw == j % aw + dx && Image(j, aw, bw, dx, dy) / bw == j / aw + dy
  {
    ShapedRecipe.Coordinates(bw, j % aw + dx, j / aw + dy);
  }

  lemma ImageApart(aw: nat, bw: nat, dx: int, dy: int, j: int, k: int)
    requires aw > 0 && bw > 0 && j >= 0 && k >= 0
    requires Image(j, aw, bw, dx, dy) == Image(k, aw, bw, dx, dy)
    requires Image(j, aw, bw, dx, dy) % bw == j % aw + dx && Image(j, aw, bw, dx, dy) / bw == j / aw + dy
    requires Image(k, aw, bw, dx, dy) % bw == k % aw + dx && Image(k, aw, bw, dx, dy) / bw == k / aw + dy
    ensures j == k
  {
    ShapedRecipe.IndexAt(aw, j);
    ShapedRecipe.IndexAt(aw, k);
  }

  /** The content at `p`-cell (x, y) of `a` moves to a `p`-cell of `b`. */
  ghost predicate Carries(a: seq<string>, aw: nat, b: seq<string>, bw: nat, dx: int, dy: int, p: string -> bool, x: int,
                          y: int)
    requires aw > 0 && bw > 0
  {
    p(ShapedRecipe.Cell(a, aw, x, y)) ==> p(ShapedRecipe.Cell(b, bw, x + dx, y + dy))
  }

  lemma CarriedIndex(a: seq<string>, aw: nat, b: seq<string>, bw: nat, dx: int, dy: int, p: string -> bool, j: int)
    requires aw > 0 && bw > 0 && !p("") && 0 <= j < |a| && p(a[j])
    requires Carries(a, aw, b, bw, dx, dy, p, j % aw, j / aw)
    ensures Image(j, aw, bw, dx, dy) in Where(b, p)
    ensures Image(j, aw, bw, dx, dy) % bw == j % aw + dx && Image(j, aw, bw, dx, dy) / bw == j / aw + dy
  {
    ShapedRecipe.CellOfIndex(a, aw, j);
    ImageLands(a, aw, b, bw, dx, dy, p, j);
  }

  /** If `p`-cells of `a` translate to `p`-cells of `b`, then `b` has at least as many. */
  lemma TranslationCounts(a: seq<string>, aw: nat, b: seq<string>, bw: nat, dx: int, dy: int, p: string -> bool)
    requires aw > 0 && bw > 0 && !p("")
    requires forall x, y {:trigger Carries(a, aw, b, bw, dx, dy, p, x, y)} :: Carries(a, aw, b, bw, dx, dy, p, x, y)
    ensures |Where(a, p)| <= |Where(b, p)|
  {
    var r, s := Where(a, p), Where(b, p);
    var f := seq(|a|, j requires 0 <= j < |a| => Image(j, aw, bw, dx, dy));
    forall j | j in r ensures Lands(f, s, j) {
      assert Carries(a, aw, b, bw, dx, dy, p, j % aw, j / aw);
      CarriedIndex(a, aw, b, bw, dx, dy, p, j);
    }
    forall j, k | j in r && k in r ensures Apart(f, j, k) {
      if f[j] == f[k] {
        assert Carries(a, aw, b, bw, dx, dy, p, j % aw, j / aw);
        CarriedIndex(a, aw, b, bw, dx, dy, p, j);
        assert Carries(a, aw, b, bw, dx, dy, p, k % aw, k / aw);
        CarriedIndex(a, aw, b, bw, dx, dy, p, k);
        ImageApart(aw, bw, dx, dy, j, k);
      }
    }
    Pigeonhole(r, f, s);
  }

  lemma WhereAppend(names: seq<string>, x: string, p: string -> bool)
    ensures |Where(names + [x], p)| == |Where(names, p)| + (if p(x) then 1 else 0)
  {
    var all, r := names + [x], Where(names, p);
    assert Where(all, p) == if p(x) then r + {|names|} else r;
  }

  function Is(s: string): string -> bool {
    n => n == s
  }

  lemma {:induction false} CountPresent(names: seq<string>)
    ensures |Where(names, FILLED)| == |Present(names)|
  {
    if names == [] {
      assert Where(names, FILLED) == {};
    } else {
      var pre, x := names[..|names| - 1], names[|names| - 1];
      assert names == pre + [x];
      CountPresent(pre);
      PartAppend(FILLED, pre, x, true);
      WhereAppend(pre, x, FILLED);
    }
  }

  lemma {:induction false} CountName(names: seq<string>, s: string)
    requires s != ""
    ensures |Where(names, Is(s))| == multiset(Present(names))[s]
  {
    if names == [] {
      assert Where(names, Is(s)) == {};
    } else {
      var pre, x := names[..|names| - 1], names[|names| - 1];
      assert names == pre + [x];
      CountName(pre, s);
      PartAppend(FILLED, pre, x, true);
      WhereAppend(pre, x, Is(s));
    }
  }

  /** A translation that preserves `p` both ways gives equal numbers of `p`-cells. */
  lemma TranslationCountsBoth(a: seq<string>, aw: nat, b: seq<string>, bw: nat, dx: int, dy: int, p: string -> bool)
    requires aw > 0 && bw > 0 && !p("")
    requires forall x, y :: p(ShapedRecipe.Cell(a, aw, x, y)) <==> p(ShapedRecipe.Cell(b, bw, x + dx, y + dy))
    ensures |Where(a, p)| == |Where(b, p)|
  {
    TranslationCounts(a, aw, b, bw, dx, dy, p);
    var ex, ey := -dx, -dy;
    forall x, y ensures Carries(b, bw, a, aw, ex, ey, p, x, y) {
      assert x + ex + dx == x && y + ey + dy == y;
    }
    TranslationCounts(b, bw, a, aw, ex, ey, p);
  }

  lemma ShapedSameCount(reg: Registry, input: CraftInput, width: nat, rec: seq<string>)
    requires HandInNoGroup(reg) && ShapedRecipe.ShapedMatches(reg, input, rec, width)
    ensures |Present(Names(input.items))| == |Present(rec)|
  {
    var inp := Names(input.items);
    var dx, dy :| ShapedRecipe.FitsAt(Ok(reg), inp, input.width, rec, width, dx, dy);
    ShapedRecipe.SlotsAreEmptyForEmpty(reg);
    TranslationCountsBoth(inp, input.width, rec, width, dx, dy, FILLED);
    CountPresent(inp);
    CountPresent(rec);
  }

  ghost predicate SameCellsAt(a: seq<string>, aw: nat, b: seq<string>, bw: nat, dx: int, dy: int)
    requires aw > 0 && bw > 0
  {
    forall x, y :: ShapedRecipe.Cell(a, aw, x, y) == ShapedRecipe.Cell(b, bw, x + dx, y + dy)
  }

  lemma SameCellsSameNames(a: seq<string>, aw: nat, b: seq<string>, bw: nat, dx: int, dy: int)
    requires aw > 0 && bw > 0 && SameCellsAt(a, aw, b, bw, dx, dy)
    ensures multiset(Present(a)) == multiset(Present(b))
  {
    forall s: string ensures multiset(Present(a))[s] == multiset(Present(b))[s] {
      if s != "" {
        TranslationCountsBoth(a, aw, b, bw, dx, dy, Is(s));
        CountName(a, s);
        CountName(b, s);
      }
    }
  }

  lemma NamedCell(reg: Registry, item: string, rec: seq<string>, width: nat, x: int, y: int)
    requires width > 0 && !HasGroup(rec) && Matches(reg, item, ShapedRecipe.Cell(rec, width, x, y))
    ensures item == ShapedRecipe.Cell(rec, width, x, y)
  {
    var c := ShapedRecipe.Cell(rec, width, x, y);
    assert c == "" || c in rec;
  }

  lemma ShapedSameNames(reg: Registry, input: CraftInput, width: nat, rec: seq<string>)
    requires ShapedRecipe.ShapedMatches(reg, input, rec, width) && !HasGroup(rec)
    ensures multiset(Present(Names(input.items))) == multiset(Present(rec))
  {
    var inp := Names(input.items);
    var dx, dy :| ShapedRecipe.FitsAt(Ok(reg), inp, input.width, rec, width, dx, dy);
    forall x, y ensures ShapedRecipe.Cell(inp, input.width, x, y) == ShapedRecipe.Cell(rec, width, x + dx, y + dy) {
      assert Ok(reg)(ShapedRecipe.Cell(inp, input.width, x, y), ShapedRecipe.Cell(rec, width, x + dx, y + dy));
      NamedCell(reg, ShapedRecipe.Cell(inp, input.width, x, y), rec, width, x + dx, y + dy);
    }
    SameCellsSameNames(inp, input.width, rec, width, dx, dy);
  }

  lemma ShapelessSameCount(reg: Registry, input: CraftInput, rec: seq<string>)
    requires ShapelessRecipe.ShapelessMatches(reg, input, rec)
    ensures Present(rec) == rec && |Present(Names(input.items))| == |rec|
  {
    var inp := Present(Names(input.items));
    var p :| Pairing(Ok(reg), inp, rec, p);
    forall j | 0 <= j < |rec| ensures rec[j] != "" {
      var i := SlotTaken(p, |rec|, j);
      assert Ok(reg)(inp[i], rec[p[i]]) && inp[i] in inp;
    }
    AllFilled(rec);
  }

  lemma SlotTaken(p: seq<int>, n: int, j: int) returns (i: int)
    requires Permutations.Injective(p, n) && |p| == n && 0 <= j < n
    ensures 0 <= i < n && p[i] == j
  {
    if forall i :: 0 <= i < n ==> p[i] != j {
      var r := Below(n);
      forall u | u in r ensures Lands(p, r - {j}, u) { }
      forall u, w | u in r && w in r ensures Apart(p, u, w) { }
      InjectionHitsAll(r, p, j);
    }
    i :| 0 <= i < n && p[i] == j;
  }

  lemma {:induction false} AllFilled(names: seq<string>)
    requires forall j :: 0 <= j < |names| ==> names[j] != ""
    ensures Present(names) == names
  {
    if names != [] {
      AllFilled(names[1..]);
      assert names == [names[0]] + names[1..];
    }
  }

  lemma ShapelessSameNames(reg: Registry, input: CraftInput, rec: seq<string>)
    requires ShapelessRecipe.ShapelessMatches(reg, input, rec) && !HasGroup(rec)
    ensures multiset(Present(Names(input.items))) == multiset(rec)
  {
    var inp := Present(Names(input.items));
    PairableIffAligned(Ok(reg), inp, rec);
    var a, b :| Arranged(Ok(reg), multiset(inp), multiset(rec), a, b);
    forall i | 0 <= i < |a| ensures a[i] == b[i] {
      assert b[i] in multiset(rec);
      assert Ok(reg)(a[i], b[i]);
    }
    assert a == b;
  }

  lemma {:induction false} OccupiedCount(items: seq<ItemStack>)
    requires forall s :: s in items ==> Proper(s)
    ensures |Present(Names(items))| == |OccupiedStacks(items)|
  {
    if items != [] {
      assert Names(items)[1..] == Names(items[1..]);
      OccupiedCount(items[1..]);
      assert Proper(items[0]);
    }
  }

  lemma SingleContents(a: seq<string>, b: seq<string>)
    requires multiset(a) == multiset(b) && |b| == 1
    ensures a == b
  {
    ShapelessRecipe.SameLength(a, b);
    assert a[0] in multiset(b);
  }

  lemma SortedSingle(hash: string -> int, kind: HashType, names: seq<string>)
    requires |Present(names)| == 1 && kind != Unhashed
    ensures GridHash(hash, kind, Sort(names)) == if kind == ItemNames then hash(Present(names)[0]) else 1
  {
    PresentSorted(names);
    SingleContents(Present(Sort(names)), Present(names));
  }

  /**
   Whenever a definition applies, the bucket probed for its hash type is the bucket it was
   filed under, whatever the hash function.
   */
  lemma FoundUnderItsHash(reg: Registry, hash: string -> int, input: CraftInput, r: Recipe)
    requires HandInNoGroup(reg) && (forall s :: s in input.items ==> Proper(s))
    requires Applies(reg, input, r)
    ensures HashOf(reg, hash, HashTypeOf(reg, r), r) == Probe(hash, HashTypeOf(reg, r), input)
  {
    var inp := Names(input.items);
    match r
    case Shaped(_, width, slots) =>
      var rec := Resolve(reg, slots);
      if HasGroup(rec) {
        ShapedSameCount(reg, input, width, rec);
        SameSizeSameCount(hash, inp, rec);
      } else {
        ShapedSameNames(reg, input, width, rec);
        SameContentsSameHash(hash, ItemNames, inp, rec);
      }
    case Shapeless(_, slots) =>
      var rec := Resolve(reg, slots);
      ShapelessSameCount(reg, input, rec);
      if HasGroup(rec) {
        SameSizeSameCount(hash, inp, rec);
      } else {
        ShapelessSameNames(reg, input, rec);
        SameContentsSameHash(hash, ItemNames, inp, rec);
      }
    case ToolRepair(_) =>
      OccupiedCount(input.items);
      PresentSorted(inp);
      ShapelessRecipe.SameLength(Present(Sort(inp)), Present(inp));
    case Cook(_, slot) => SingleFound(reg, hash, input, slot);
    case Burn(slot) => SingleFound(reg, hash, input, slot);
  }

  lemma SingleFound(reg: Registry, hash: string -> int, input: CraftInput, slot: string)
    requires SingleMatches(reg, input, input.kind, slot)
    ensures var names := Resolve(reg, [slot]);
            var kind := if HasGroup(names) then Count else ItemNames;
            (if kind == ItemNames then hash(reg.Alias(slot)) else 1) == Probe(hash, kind, input)
  {
    var names := Resolve(reg, [slot]);
    var kind := if HasGroup(names) then Count else ItemNames;
    assert names[0] in names;
    SortedSingle(hash, kind, Names(input.items));
  }

  /** Applicable definitions of equal priority are filed under the same hash type, fuel apart. */
  lemma EqualPrioritySameLayer(reg: Registry, input: CraftInput, r: Recipe, q: Recipe)
    requires input.kind != Fuel
    requires GroupsStable(reg, r) && GroupsStable(reg, q)
    requires Applies(reg, input, r) && Applies(reg, input, q) && Priority(r) == Priority(q)
    ensures HashTypeOf(reg, r) == HashTypeOf(reg, q)
  {
    GroupsBeforeAndAfter(reg, r);
    GroupsBeforeAndAfter(reg, q);
    assert forall s :: HasGroup([s]) <==> [s][0] in [s] && IsGroup(s);
  }

  lemma GroupsBeforeAndAfter(reg: Registry, r: Recipe)
    requires GroupsStable(reg, r)
    ensures HasGroup(Resolve(reg, SlotsOf(r))) <==> HasGroup(SlotsOf(r))
  {
    var a, b := SlotsOf(r), Resolve(reg, SlotsOf(r));
    if HasGroup(a) {
      var i :| 0 <= i < |a| && IsGroup(a[i]);
      assert b[i] in b;
    }
    if HasGroup(b) {
      var i :| 0 <= i < |b| && IsGroup(b[i]);
      assert a[i] in a;
    }
  }
}
