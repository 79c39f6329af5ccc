/** Item definitions, item stacks, and when an item name satisfies a recipe slot. */
module Items {
  import opened Common
  import opened Pairings

  datatype ItemDef = ItemDef(groups: map<string, int>, stackMax: U16, isTool: bool)

  /** The item registry; `unknown` is the definition used for names nobody registered. */
  datatype Registry = Registry(aliases: map<string, string>, defs: map<string, ItemDef>, unknown: ItemDef)
  {
    function Alias(name: string): string {
      if name in aliases then aliases[name] else name
    }

    predicate Known(name: string) {
      Alias(name) in defs
    }

    function Get(name: string): ItemDef {
      if Alias(name) in defs then defs[Alias(name)] else unknown
    }
  }

  function GroupRating(groups: map<string, int>, group: string): int {
    if group in groups then groups[group] else 0
  }

  datatype ItemStack = ItemStack(name: string, count: U16, wear: U16, meta: map<string, string>)
  {
    predicate Empty() { count == 0 }
  }

  const EMPTY_STACK := ItemStack("", 0, 0, map[])

  /** Every way of emptying a stack also resets its name, wear and metadata. */
  predicate WellFormed(s: ItemStack) {
    s.count == 0 ==> s == EMPTY_STACK
  }

  /** A well-formed stack in a slot also has a name whenever it has a count. */
  predicate Proper(s: ItemStack) {
    WellFormed(s) && (s.name == "" ==> s.count == 0)
  }

  // ----- Recipe slots -----

  const GROUP_PREFIX := "group:"

  predicate IsGroup(rec: string) {
    |rec| >= 6 && rec[..6] == GROUP_PREFIX
  }

  function CommaAt(s: string): (n: nat)
    ensures n <= |s|
  {
    if s == "" || s[0] == ',' then 0 else 1 + CommaAt(s[1..])
  }

  /** The comma-separated parts, read until the end of the string is reached: at least one. */
  function GroupNames(s: string): seq<string>
    decreases |s|
  {
    var n := CommaAt(s);
    if n + 1 >= |s| then [s[..n]] else [s[..n]] + GroupNames(s[n + 1..])
  }

  /** Exact name, or membership in every group a "group:a,b" slot lists. */
  predicate Matches(reg: Registry, inp: string, rec: string) {
    || inp == rec
    || (IsGroup(rec) && reg.Known(inp) &&
        forall group :: group in GroupNames(rec[6..]) ==> GroupRating(reg.Get(inp).groups, group) != 0)
  }

  // ----- What a slot asks for -----

  lemma {:induction false} CommaAfter(a: string, rest: string)
    requires ',' !in a
    ensures CommaAt(a) == |a| && CommaAt(a + "," + rest) == |a|
  {
    if a == "" {
      assert a + "," + rest == "," + rest;
    } else {
      CommaAfter(a[1..], rest);
      assert (a + "," + rest)[1..] == a[1..] + "," + rest;
    }
  }

  lemma GroupsSplit(a: string, b: string)
    requires ',' !in a
    ensures GroupNames(a) == [a]
    ensures GroupNames(a + "," + b) == if b == "" then [a] else [a] + GroupNames(b)
  {
    CommaAfter(a, b);
    var s := a + "," + b;
    assert s[..|a|] == a && s[|a| + 1..] == b && a[..|a|] == a;
  }

  lemma GroupSlot(rest: string)
    ensures IsGroup("group:" + rest) && ("group:" + rest)[6..] == rest
  {
  }

  /** A slot that names one group takes the known items rated in it, by whatever name they go. */
  lemma OneGroup(reg: Registry, inp: string, a: string)
    requires ',' !in a
    ensures var name := if inp in reg.aliases then reg.aliases[inp] else inp;
            Matches(reg, inp, "group:" + a)
            <==> inp == "group:" + a
                 || (name in reg.defs && a in reg.defs[name].groups && reg.defs[name].groups[a] != 0)
  {
    GroupSlot(a);
    GroupsSplit(a, "");
    var rec := "group:" + a;
    assert forall g :: g in GroupNames(rec[6..]) <==> g == a;
    assert Matches(reg, inp, rec) <==> inp == rec || (reg.Known(inp) && GroupRating(reg.Get(inp).groups, a) != 0);
  }

  /** A slot that lists several groups takes what all of them take; a comma at the end adds none. */
  lemma SeveralGroups(reg: Registry, inp: string, a: string, b: string)
    requires ',' !in a && !IsGroup(inp)
    ensures Matches(reg, inp, "group:" + a + "," + b)
            <==> Matches(reg, inp, "group:" + a) && (b == "" || Matches(reg, inp, "group:" + b))
  {
    assert "group:" + a + "," + b == "group:" + (a + "," + b);
    GroupSlot(a + "," + b);
    GroupSlot(a);
    GroupSlot(b);
    GroupsSplit(a, b);
    assert forall g :: g in GroupNames(a + "," + b) <==> g == a || (b != "" && g in GroupNames(b));
  }

  /** Any other slot takes one name only. */
  lemma NamedSlot(reg: Registry, inp: string, rec: string)
    requires !("group:" <= rec)
    ensures Matches(reg, inp, rec) <==> inp == rec
  {
  }

  /** The empty hand is rated in no group. */
  predicate HandInNoGroup(reg: Registry) {
    reg.Known("") ==> forall group :: group in reg.Get("").groups ==> reg.Get("").groups[group] == 0
  }

  lemma HandFailsSomeGroup(reg: Registry, rec: string)
    requires HandInNoGroup(reg) && reg.Known("") && IsGroup(rec)
    ensures exists group :: group in GroupNames(rec[6..]) && GroupRating(reg.Get("").groups, group) == 0
  {
    var names := GroupNames(rec[6..]);
    assert names[0] in names;
  }

  lemma EmptyMatchesOnlyEmpty(reg: Registry, inp: string, rec: string)
    requires HandInNoGroup(reg) && Matches(reg, inp, rec)
    ensures rec == "" ==> inp == ""
    ensures inp == "" ==> rec == ""
  {
    if inp == "" && rec != "" {
      HandFailsSomeGroup(reg, rec);
    }
  }

  /** Which items satisfy which slots, as a relation. */
  ghost function Ok(reg: Registry): (string, string) -> bool {
    (item, slot) => Matches(reg, item, slot)
  }

  // ----- Craft inputs -----

  datatype CraftMethod = Normal | Cooking | Fuel

  datatype CraftInput = CraftInput(kind: CraftMethod, width: nat, items: seq<ItemStack>)

  function Names(items: seq<ItemStack>): (names: seq<string>)
    ensures |names| == |items| && forall i :: 0 <= i < |items| ==> names[i] == items[i].name
  {
    seq(|items|, i requires 0 <= i < |items| => items[i].name)
  }

  const FILLED: string -> bool := name => name != ""

  /** The names of the occupied slots, in slot order. */
  function Present(names: seq<string>): (r: seq<string>)
    ensures "" !in r
    ensures |r| <= |names|
  {
    Part(FILLED, names, true)
  }
}
