/**
 The craft definition manager: definitions are first kept in one list, then moved into
 buckets by hash type and hash; a craft is looked up by probing one bucket per hash type.
 */
module CraftManager {
  import opened Common
  import opened Items
  import opened Recipes
  import opened Scans

  const BY_PRIORITY: Definition -> nat := (d: Definition) => Priority(d.recipe)

  /** Definitions that apply to `input` and yield a known item. */
  ghost function Eligible(reg: Registry, input: CraftInput): Definition -> bool {
    (d: Definition) => Applies(reg, input, d.recipe) && reg.Known(OutputName(input, d.recipe))
  }

  /** The definitions filed under hash type `kind` and hash `h`. */
  ghost function FiledUnder(reg: Registry, hash: string -> int, kind: HashType, h: int): Definition -> bool {
    (d: Definition) => HashTypeOf(reg, d.recipe) == kind && HashOf(reg, hash, kind, d.recipe) == h
  }

  ghost function Probed(reg: Registry, hash: string -> int, kind: HashType, input: CraftInput): Definition -> bool {
    FiledUnder(reg, hash, kind, Probe(hash, kind, input))
  }

  /** The plain lookup: one scan over everything registered, latest first. */
  ghost function PlainResult(reg: Registry, input: CraftInput, defs: seq<Definition>): Option<Definition> {
    Scan(BY_PRIORITY, Eligible(reg, input), defs, None)
  }

  /** The indexed lookup: the probed names bucket, then the probed count bucket. */
  ghost function IndexedResult(reg: Registry, hash: string -> int, input: CraftInput,
                               defs: seq<Definition>): Option<Definition>
  {
    Scan(BY_PRIORITY, Eligible(reg, input), Only(Probed(reg, hash, Count, input), defs),
         Scan(BY_PRIORITY, Eligible(reg, input), Only(Probed(reg, hash, ItemNames, input), defs), None))
  }

  // ----- The index picks the same definition -----

  ghost function FiledBy(reg: Registry, kind: HashType): Definition -> bool {
    (d: Definition) => HashTypeOf(reg, d.recipe) == kind
  }

  lemma InOneBucket(reg: Registry, hash: string -> int, input: CraftInput, d: Definition)
    requires HandInNoGroup(reg) && (forall s :: s in input.items ==> Proper(s))
    requires Eligible(reg, input)(d)
    ensures Probed(reg, hash, ItemNames, input)(d) != Probed(reg, hash, Count, input)(d)
    ensures Probed(reg, hash, ItemNames, input)(d) <==> FiledBy(reg, ItemNames)(d)
    ensures Probed(reg, hash, Count, input)(d) <==> FiledBy(reg, Count)(d)
  {
    FoundUnderItsHash(reg, hash, input, d.recipe);
  }

  /**
   The winner of the plain scan is filed by count, as group recipes are, and another
   definition of its priority that applies is filed by its item names.
   */
  ghost predicate Shadowed(reg: Registry, input: CraftInput, defs: seq<Definition>) {
    WinnerShadowed(BY_PRIORITY, Eligible(reg, input), FiledBy(reg, ItemNames), FiledBy(reg, Count), defs)
  }

  /**
   For every kind of input, hash function and set of definitions: the index finds something
   exactly when the plain scan does, and something else exactly when its winner is shadowed.
   */
  lemma IndexDiffersIff(reg: Registry, hash: string -> int, input: CraftInput, defs: seq<Definition>)
    requires HandInNoGroup(reg) && (forall s :: s in input.items ==> Proper(s))
    ensures IndexedResult(reg, hash, input, defs).Some? <==> PlainResult(reg, input, defs).Some?
    ensures IndexedResult(reg, hash, input, defs) != PlainResult(reg, input, defs)
            <==> Shadowed(reg, input, defs)
  {
    var ok := Eligible(reg, input);
    var inA, inB := Probed(reg, hash, ItemNames, input), Probed(reg, hash, Count, input);
    var byName, byCount := FiledBy(reg, ItemNames), FiledBy(reg, Count);
    forall d | d in defs && ok(d) ensures inA(d) != inB(d) && inA(d) == byName(d) && inB(d) == byCount(d) {
      InOneBucket(reg, hash, input, d);
    }
    LayeredScanDiffersIff(BY_PRIORITY, ok, inA, inB, defs);
    SameShadow(BY_PRIORITY, ok, inA, inB, byName, byCount, defs);
  }

  /**
   For the crafting grid and the furnace, the index selects exactly the definition the
   plain scan would, unless an alias makes or unmakes a group slot of one that applies.
   */
  lemma IndexIsTransparent(reg: Registry, hash: string -> int, input: CraftInput, defs: seq<Definition>)
    requires HandInNoGroup(reg) && (forall s :: s in input.items ==> Proper(s))
    requires input.kind != Fuel
    requires forall d :: d in defs && Eligible(reg, input)(d) ==> GroupsStable(reg, d.recipe)
    ensures IndexedResult(reg, hash, input, defs) == PlainResult(reg, input, defs)
  {
    IndexDiffersIff(reg, hash, input, defs);
    forall i, k ensures !Overtaken(BY_PRIORITY, Eligible(reg, input), FiledBy(reg, ItemNames), FiledBy(reg, Count),
                                   defs, i, k) {
      if Wins(BY_PRIORITY, Eligible(reg, input), defs, i) && 0 <= k < |defs| && Eligible(reg, input)(defs[k])
         && Priority(defs[k].recipe) == Priority(defs[i].recipe) {
        EqualPrioritySameLayer(reg, input, defs[i].recipe, defs[k].recipe);
      }
    }
  }

  /** What either lookup finds, said without scanning. */
  lemma PlainResultIsBest(reg: Registry, input: CraftInput, defs: seq<Definition>)
    ensures var r := PlainResult(reg, input, defs);
            if r.Some? then exists i :: Wins(BY_PRIORITY, Eligible(reg, input), defs, i) && defs[i] == r.value
            else forall d :: d in defs ==> !Eligible(reg, input)(d)
  {
    ScanFindsWinner(BY_PRIORITY, Eligible(reg, input), defs);
  }

  // ----- Which kind of recipe is chosen -----

  ghost predicate NamesGroup(slots: seq<string>) {
    exists s :: s in slots && "group:" <= s
  }

  /**
   `r` is of no lesser kind than `d`: shaped recipes go before shapeless ones and repairs
   come last; within each kind, recipes without group slots go first.  Fuel is of one kind.
   */
  ghost predicate KindAtLeast(r: Recipe, d: Recipe) {
    && (d.Shaped? ==> r.Shaped? && (NamesGroup(r.slots) ==> NamesGroup(d.slots)))
    && (d.Shapeless? ==> r.Shaped? || (r.Shapeless? && (NamesGroup(r.slots) ==> NamesGroup(d.slots))))
    && (d.Cook? ==> r.Cook? && ("group:" <= r.slot ==> "group:" <= d.slot))
    && (d.Burn? ==> r.Burn?)
  }

  /** The definition found applies, yields something known, and is of the best kind that does. */
  ghost predicate BestOf(reg: Registry, input: CraftInput, defs: seq<Definition>, r: Option<Definition>) {
    && (r.Some? ==> r.value in defs && Applies(reg, input, r.value.recipe)
                    && reg.Known(OutputName(input, r.value.recipe)))
    && forall d :: d in defs && Applies(reg, input, d.recipe) && reg.Known(OutputName(input, d.recipe)) ==>
         r.Some? && KindAtLeast(r.value.recipe, d.recipe)
  }

  lemma GroupsAreNamed(slots: seq<string>)
    ensures HasGroup(slots) <==> NamesGroup(slots)
  {
    if s :| s in slots && IsGroup(s) {
      assert "group:" <= s;
    }
  }

  lemma HigherIsBetterKind(reg: Registry, input: CraftInput, r: Recipe, d: Recipe)
    requires Applies(reg, input, r) && Applies(reg, input, d)
    ensures Priority(r) >= Priority(d) <==> KindAtLeast(r, d)
  {
    GroupsAreNamed(SlotsOf(r));
    GroupsAreNamed(SlotsOf(d));
  }

  lemma HighestIsBest(reg: Registry, input: CraftInput, defs: seq<Definition>, r: Option<Definition>)
    requires Highest(BY_PRIORITY, Eligible(reg, input), defs, r)
    ensures BestOf(reg, input, defs, r)
  {
    forall d | d in defs && Eligible(reg, input)(d) ensures r.Some? && KindAtLeast(r.value.recipe, d.recipe) {
      HigherIsBetterKind(reg, input, r.value.recipe, d.recipe);
    }
  }

  lemma AllRanked()
    ensures forall d: Definition :: BY_PRIORITY(d) > 0
  {
  }

  /** Both lookups choose the best kind of recipe there is. */
  lemma BestKindIsChosen(reg: Registry, hash: string -> int, input: CraftInput, defs: seq<Definition>)
    requires HandInNoGroup(reg) && (forall s :: s in input.items ==> Proper(s))
    ensures BestOf(reg, input, defs, PlainResult(reg, input, defs))
    ensures BestOf(reg, input, defs, IndexedResult(reg, hash, input, defs))
  {
    AllRanked();
    ScanIsHighest(BY_PRIORITY, Eligible(reg, input), defs);
    HighestIsBest(reg, input, defs, PlainResult(reg, input, defs));
    forall d | d in defs && Eligible(reg, input)(d)
      ensures Probed(reg, hash, ItemNames, input)(d) != Probed(reg, hash, Count, input)(d)
    {
      InOneBucket(reg, hash, input, d);
    }
    LayersFindHighest(BY_PRIORITY, Eligible(reg, input), Probed(reg, hash, ItemNames, input),
                      Probed(reg, hash, Count, input), defs);
    HighestIsBest(reg, input, defs, IndexedResult(reg, hash, input, defs));
  }

  /** Of several definitions of that kind, the plain lookup chooses none that another was registered after. */
  lemma LatestOfItsKind(reg: Registry, input: CraftInput, defs: seq<Definition>, k: nat)
    requires k < |defs| && Applies(reg, input, defs[k].recipe) && reg.Known(OutputName(input, defs[k].recipe))
    requires var r := PlainResult(reg, input, defs); r.Some? ==> KindAtLeast(defs[k].recipe, r.value.recipe)
    ensures var r := PlainResult(reg, input, defs); r.Some? && r.value in defs[k..]
  {
    ScanFindsWinner(BY_PRIORITY, Eligible(reg, input), defs);
    var r := PlainResult(reg, input, defs);
    assert Eligible(reg, input)(defs[k]) && BY_PRIORITY(defs[k]) > 0;
    var i :| Wins(BY_PRIORITY, Eligible(reg, input), defs, i) && defs[i] == r.value;
    HigherIsBetterKind(reg, input, defs[k].recipe, r.value.recipe);
    assert defs[i] == defs[k..][i - k];
  }

  // ----- Fuel: where the index can change the answer -----

  /** The last fuel definition that applies names a group, and another that applies names its item. */
  ghost predicate GroupFuelShadowed(reg: Registry, input: CraftInput, defs: seq<Definition>) {
    LastInB(Eligible(reg, input), FiledBy(reg, ItemNames), FiledBy(reg, Count), defs)
  }

  /** All fuel has one priority. */
  lemma FuelIsFlat(reg: Registry, input: CraftInput, defs: seq<Definition>)
    requires input.kind == Fuel
    ensures forall d :: d in defs && Eligible(reg, input)(d) ==> BY_PRIORITY(d) == 3
  {
  }

  lemma FuelIndex(reg: Registry, hash: string -> int, input: CraftInput, defs: seq<Definition>)
    requires HandInNoGroup(reg) && (forall s :: s in input.items ==> Proper(s))
    requires input.kind == Fuel
    ensures IndexedResult(reg, hash, input, defs).Some? <==> PlainResult(reg, input, defs).Some?
    ensures IndexedResult(reg, hash, input, defs) != PlainResult(reg, input, defs)
            <==> GroupFuelShadowed(reg, input, defs)
  {
    IndexDiffersIff(reg, hash, input, defs);
    FuelIsFlat(reg, input, defs);
    FlatShadow(BY_PRIORITY, Eligible(reg, input), FiledBy(reg, ItemNames), FiledBy(reg, Count), defs, 3);
  }

  // A registry with one kind of wood, a log to burn, and two fuel entries for it.
  const WOODEN: Registry :=
    Registry(map[], map["" := ItemDef(map[], 99, false), "log" := ItemDef(map["wood" := 1], 99, false)],
             ItemDef(map[], 99, false))
  const LOG_INPUT: CraftInput := CraftInput(Fuel, 1, [ItemStack("log", 1, 0, map[])])
  const NAMED_FUEL: Definition := Definition(0, Burn("log"))
  const GROUP_FUEL: Definition := Definition(1, Burn("group:wood"))

  lemma LogIsWood()
    ensures Matches(WOODEN, "log", "group:wood") && IsGroup("group:wood") && !IsGroup("log")
  {
    assert "group:wood"[6..] == "wood" && "group:wood"[..6] == GROUP_PREFIX;
    assert CommaAt("wood") == 1 + CommaAt("ood") && CommaAt("ood") == 1 + CommaAt("od");
    assert CommaAt("od") == 1 + CommaAt("d") && CommaAt("d") == 1;
    assert "wood"[..4] == "wood" && GroupNames("wood") == ["wood"];
  }

  lemma BothFuelsMatch()
    ensures Eligible(WOODEN, LOG_INPUT)(NAMED_FUEL) && Eligible(WOODEN, LOG_INPUT)(GROUP_FUEL)
  {
    LogIsWood();
    assert Names(LOG_INPUT.items) == ["log"];
    assert Present(["log"]) == ["log"];
  }

  lemma FuelHashTypes()
    ensures HashTypeOf(WOODEN, NAMED_FUEL.recipe) == ItemNames && HashTypeOf(WOODEN, GROUP_FUEL.recipe) == Count
  {
    LogIsWood();
    assert Resolve(WOODEN, ["group:wood"])[0] in Resolve(WOODEN, ["group:wood"]);
  }

  lemma LatestFuelIsGroup()
    ensures PlainResult(WOODEN, LOG_INPUT, [NAMED_FUEL, GROUP_FUEL]) == Some(GROUP_FUEL)
  {
    var ok := Eligible(WOODEN, LOG_INPUT);
    BothFuelsMatch();
    ScanSnoc(BY_PRIORITY, ok, [NAMED_FUEL], GROUP_FUEL);
    ScanResult(BY_PRIORITY, ok, [NAMED_FUEL]);
    assert [NAMED_FUEL] + [GROUP_FUEL] == [NAMED_FUEL, GROUP_FUEL];
  }

  /** A log is burnt by its own, older entry although a later entry covers all wood. */
  lemma FuelIndexCanDiffer(hash: string -> int)
    ensures HandInNoGroup(WOODEN)
    ensures PlainResult(WOODEN, LOG_INPUT, [NAMED_FUEL, GROUP_FUEL]) == Some(GROUP_FUEL)
    ensures IndexedResult(WOODEN, hash, LOG_INPUT, [NAMED_FUEL, GROUP_FUEL]) != Some(GROUP_FUEL)
  {
    LatestFuelIsGroup();
    BothFuelsMatch();
    FuelHashTypes();
    assert NAMED_FUEL in [NAMED_FUEL, GROUP_FUEL];
    assert Last(Eligible(WOODEN, LOG_INPUT), [NAMED_FUEL, GROUP_FUEL], 1);
    FuelIndex(WOODEN, hash, LOG_INPUT, [NAMED_FUEL, GROUP_FUEL]);
  }

  // ----- The manager -----

  type Layers = map<HashType, map<int, seq<Definition>>>

  function BucketOf(layers: Layers, kind: HashType, h: int): seq<Definition> {
    if kind in layers && h in layers[kind] then layers[kind][h] else []
  }

  /** Bucket (kind, h) has gained exactly those of `moved` that belong there, in order. */
  ghost predicate MovedBucket(reg: Registry, hash: string -> int, before: Layers, now: Layers, moved: seq<Definition>,
                              kind: HashType, h: int)
  {
    BucketOf(now, kind, h) == BucketOf(before, kind, h) + Only(FiledUnder(reg, hash, kind, h), moved)
  }

  ghost predicate Moved(reg: Registry, hash: string -> int, before: Layers, now: Layers, moved: seq<Definition>) {
    forall kind, h {:trigger MovedBucket(reg, hash, before, now, moved, kind, h)} ::
      kind != Unhashed ==> MovedBucket(reg, hash, before, now, moved, kind, h)
  }

  ghost predicate AppendedAt(
    now: Layers, next: Layers, def: Definition, kind0: HashType, h0: int, k: HashType, i: int
  ) {
    BucketOf(next, k, i) == BucketOf(now, k, i) + (if k == kind0 && i == h0 then [def] else [])
  }

  /** Bucket (kind0, h0) has gained `def`, and no other has changed. */
  ghost predicate Appended(now: Layers, next: Layers, def: Definition, kind0: HashType, h0: int) {
    forall k, i {:trigger AppendedAt(now, next, def, kind0, h0, k, i)} :: AppendedAt(now, next, def, kind0, h0, k, i)
  }

  ghost predicate FiledAt(
    reg: Registry, hash: string -> int, now: Layers, next: Layers, def: Definition, kind: HashType, h: int
  ) {
    BucketOf(next, kind, h) == BucketOf(now, kind, h) + (if FiledUnder(reg, hash, kind, h)(def) then [def] else [])
  }

  /** The bucket `def` belongs in has gained it, and no other bucket has changed. */
  ghost predicate Filed(reg: Registry, hash: string -> int, now: Layers, next: Layers, def: Definition) {
    forall kind, h {:trigger FiledAt(reg, hash, now, next, def, kind, h)} :: FiledAt(reg, hash, now, next, def, kind, h)
  }

  lemma AppendedIsFiled(reg: Registry, hash: string -> int, now: Layers, next: Layers, def: Definition)
    requires var kind := HashTypeOf(reg, def.recipe);
             Appended(now, next, def, kind, HashOf(reg, hash, kind, def.recipe))
    ensures Filed(reg, hash, now, next, def)
  {
    var kind0 := HashTypeOf(reg, def.recipe);
    var h0 := HashOf(reg, hash, kind0, def.recipe);
    forall kind, h ensures FiledAt(reg, hash, now, next, def, kind, h) {
      assert AppendedAt(now, next, def, kind0, h0, kind, h);
      FiledOnce(reg, hash, kind, h, def, kind0, h0);
    }
  }

  lemma FiledOnce(
    reg: Registry, hash: string -> int, kind: HashType, h: int, def: Definition, kind0: HashType, h0: int
  )
    requires kind0 == HashTypeOf(reg, def.recipe) && h0 == HashOf(reg, hash, kind0, def.recipe)
    ensures FiledUnder(reg, hash, kind, h)(def) <==> kind == kind0 && h == h0
  {
  }

  lemma MoveOne(
    reg: Registry, hash: string -> int, before: Layers, now: Layers, next: Layers, moved: seq<Definition>,
    def: Definition
  )
    requires Moved(reg, hash, before, now, moved) && Filed(reg, hash, now, next, def)
    ensures Moved(reg, hash, before, next, moved + [def])
  {
    forall kind, h | kind != Unhashed ensures MovedBucket(reg, hash, before, next, moved + [def], kind, h) {
      assert MovedBucket(reg, hash, before, now, moved, kind, h);
      assert FiledAt(reg, hash, now, next, def, kind, h);
      var keep := FiledUnder(reg, hash, kind, h);
      OnlySnoc(keep, moved, def);
      AppendAfter(BucketOf(before, kind, h), Only(keep, moved), if keep(def) then [def] else []);
    }
  }

  lemma AppendAfter(a: seq<Definition>, b: seq<Definition>, c: seq<Definition>)
    ensures (a + b) + c == a + (b + c)
  {
  }

  lemma AppendedOnlyThere(now: Layers, next: Layers, def: Definition, kind0: HashType, h0: int)
    requires Appended(now, next, def, kind0, h0)
    ensures BucketOf(next, kind0, h0) == BucketOf(now, kind0, h0) + [def]
    ensures forall kind, h :: kind != kind0 ==> BucketOf(next, kind, h) == BucketOf(now, kind, h)
  {
    assert AppendedAt(now, next, def, kind0, h0, kind0, h0);
    forall kind, h | kind != kind0 ensures BucketOf(next, kind, h) == BucketOf(now, kind, h) {
      assert AppendedAt(now, next, def, kind0, h0, kind, h);
    }
  }

  /** Everything registered so far still waits in the unhashed list. */
  ghost predicate Collecting(layers: Layers, defs: seq<Definition>) {
    && BucketOf(layers, Unhashed, 0) == defs
    && forall kind, h :: kind != Unhashed ==> BucketOf(layers, kind, h) == []
  }

  /** Everything registered has been filed under its hash, in registration order. */
  ghost predicate Indexed(reg: Registry, hash: string -> int, layers: Layers, defs: seq<Definition>) {
    && BucketOf(layers, Unhashed, 0) == []
    && forall kind, h :: kind != Unhashed ==> BucketOf(layers, kind, h) == Only(FiledUnder(reg, hash, kind, h), defs)
  }

  lemma MovedIsIndexed(reg: Registry, hash: string -> int, before: Layers, now: Layers, defs: seq<Definition>)
    requires Collecting(before, defs) && Moved(reg, hash, before, now, defs) && BucketOf(now, Unhashed, 0) == []
    ensures Indexed(reg, hash, now, defs)
  {
    forall kind, h | kind != Unhashed ensures BucketOf(now, kind, h) == Only(FiledUnder(reg, hash, kind, h), defs) {
      assert MovedBucket(reg, hash, before, now, defs, kind, h);
    }
  }

  class CraftDefManager {
    const hash: string -> int
    var craftDefs: Layers

    function Bucket(kind: HashType, h: int): seq<Definition>
      reads this
    {
      BucketOf(craftDefs, kind, h)
    }

    constructor (hash: string -> int)
      ensures this.hash == hash && Collecting(craftDefs, [])
    {
      this.hash := hash;
      this.craftDefs := map[];
    }

    method Append(kind: HashType, h: int, def: Definition)
      modifies this
      ensures Appended(old(craftDefs), craftDefs, def, kind, h)
    {
      var layer := if kind in craftDefs then craftDefs[kind] else map[];
      var bucket := if h in layer then layer[h] else [];
      craftDefs := craftDefs[kind := layer[h := bucket + [def]]];
    }

    method RegisterCraft(def: Definition)
      modifies this
      ensures Bucket(Unhashed, 0) == old(Bucket(Unhashed, 0)) + [def]
      ensures forall kind, h :: kind != Unhashed ==> Bucket(kind, h) == old(Bucket(kind, h))
      ensures forall defs :: Collecting(old(craftDefs), defs) ==> Collecting(craftDefs, defs + [def])
    {
      ghost var before := craftDefs;
      Append(Unhashed, 0, def);
      AppendedOnlyThere(before, craftDefs, def, Unhashed, 0);
    }

    /** Move every definition from the unhashed list into the bucket of its hash. */
    method InitHashes(reg: Registry)
      modifies this
      ensures Bucket(Unhashed, 0) == []
      ensures Moved(reg, hash, old(craftDefs), craftDefs, old(Bucket(Unhashed, 0)))
      ensures forall defs :: Collecting(old(craftDefs), defs) ==> Indexed(reg, hash, craftDefs, defs)
    {
      var unhashed := Bucket(Unhashed, 0);
      ghost var before := craftDefs;
      MoveAll(reg, unhashed);
      ghost var moved := craftDefs;
      craftDefs := craftDefs[Unhashed := if Unhashed in craftDefs then craftDefs[Unhashed][0 := []] else map[]];
      forall kind, h | kind != Unhashed ensures MovedBucket(reg, hash, before, craftDefs, unhashed, kind, h) {
        assert MovedBucket(reg, hash, before, moved, unhashed, kind, h);
      }
      forall defs | Collecting(before, defs) ensures Indexed(reg, hash, craftDefs, defs) {
        MovedIsIndexed(reg, hash, before, craftDefs, defs);
      }
    }

    method AppendHashed(reg: Registry, def: Definition)
      modifies this
      ensures Filed(reg, hash, old(craftDefs), craftDefs, def)
    {
      ghost var now := craftDefs;
      var kind := HashTypeOf(reg, def.recipe);
      Append(kind, HashOf(reg, hash, kind, def.recipe), def);
      AppendedIsFiled(reg, hash, now, craftDefs, def);
    }

    method MoveAll(reg: Registry, unhashed: seq<Definition>)
      modifies this
      ensures Moved(reg, hash, old(craftDefs), craftDefs, unhashed)
    {
      ghost var before := craftDefs;
      assert Moved(reg, hash, before, craftDefs, []);
      for i := 0 to |unhashed|
        invariant Moved(reg, hash, before, craftDefs, unhashed[..i])
      {
        var def := unhashed[i];
        ghost var now := craftDefs;
        AppendHashed(reg, def);
        MoveOne(reg, hash, before, now, craftDefs, unhashed[..i], def);
        assert unhashed[..i + 1] == unhashed[..i] + [def];
      }
      assert unhashed[..|unhashed|] == unhashed;
    }

    /** Walk one bucket from back to front, improving on `best`. */
    method ScanBucket(reg: Registry, input: CraftInput, defs: seq<Definition>, best: Option<Definition>)
      returns (r: Option<Definition>)
      requires HandInNoGroup(reg)
      ensures r == Scan(BY_PRIORITY, Eligible(reg, input), defs, best)
    {
      r := best;
      assert defs[..|defs|] == defs;
      for i := |defs| downto 0
        invariant Scan(BY_PRIORITY, Eligible(reg, input), defs[..i], r) ==
                  Scan(BY_PRIORITY, Eligible(reg, input), defs, best)
      {
        var def := defs[i];
        assert defs[..i + 1][..i] == defs[..i];
        if Priority(def.recipe) > Rank(BY_PRIORITY, r) {
          var applies := Check(reg, input, def.recipe);
          if applies && reg.Known(OutputName(input, def.recipe)) {
            r := Some(def);
          }
        }
      }
    }

    method GetCraftResult(reg: Registry, input: CraftInput) returns (best: Option<Definition>)
      requires HandInNoGroup(reg) && (forall s :: s in input.items ==> Proper(s))
      ensures OccupiedStacks(input.items) == [] ==> best == None
      ensures forall defs :: Collecting(craftDefs, defs) && OccupiedStacks(input.items) != [] ==>
                best == PlainResult(reg, input, defs)
      ensures forall defs :: Indexed(reg, hash, craftDefs, defs) && OccupiedStacks(input.items) != [] ==>
                best == IndexedResult(reg, hash, input, defs)
      ensures forall defs :: OccupiedStacks(input.items) != []
                             && (Collecting(craftDefs, defs) || Indexed(reg, hash, craftDefs, defs)) ==>
                BestOf(reg, input, defs, best)
    {
      best := None;
      if OccupiedStacks(input.items) == [] {
        return;
      }
      best := ScanBucket(reg, input, Bucket(ItemNames, Probe(hash, ItemNames, input)), best);
      best := ScanBucket(reg, input, Bucket(Count, Probe(hash, Count, input)), best);
      best := ScanBucket(reg, input, Bucket(Unhashed, Probe(hash, Unhashed, input)), best);
      forall defs | Collecting(craftDefs, defs) || Indexed(reg, hash, craftDefs, defs)
        ensures BestOf(reg, input, defs, best)
      {
        BestKindIsChosen(reg, hash, input, defs);
      }
    }
  }
}
