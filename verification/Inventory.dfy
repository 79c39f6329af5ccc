/** Inventory lists: slots holding item stacks, and the operations that fill, drain and move them. */
module Inventory {
  import opened Common
  import opened Items
  import opened Stacks

  ghost predicate AllWellFormed(items: seq<ItemStack>) {
    forall i :: 0 <= i < |items| ==> WellFormed(items[i])
  }

  /** Total number of items of one kind in a list. */
  function Total(items: seq<ItemStack>, key: Key): nat {
    if items == [] then 0 else Total(items[..|items| - 1], key) + Amount(items[|items| - 1], key)
  }

  lemma {:induction false} TotalUpdate(items: seq<ItemStack>, i: nat, s: ItemStack, key: Key)
    requires i < |items|
    ensures Total(items[i := s], key) == Total(items, key) - Amount(items[i], key) + Amount(s, key)
  {
    var n := |items| - 1;
    if i < n {
      TotalUpdate(items[..n], i, s, key);
      assert items[i := s][..n] == items[..n][i := s];
    } else {
      assert items[i := s][..n] == items[..n];
    }
  }

  // ----- Adding to a list -----

  datatype Stored = Stored(items: seq<ItemStack>, leftover: ItemStack)

  /** Offer `item` to slots `i`, `i + 1`, ... that are empty, or that are not. */
  function Pass(reg: Registry, items: seq<ItemStack>, i: nat, item: ItemStack, empty: bool): (r: Stored)
    requires i <= |items|
    ensures |r.items| == |items|
    decreases |items| - i
  {
    if i == |items| || item.Empty() then
      Stored(items, item)
    else if items[i].Empty() != empty then
      Pass(reg, items, i + 1, item, empty)
    else
      var a := AddTo(reg, items[i], item);
      Pass(reg, items[i := a.slot], i + 1, a.leftover, empty)
  }

  /** First top up existing stacks, then use empty slots. */
  function AddAll(reg: Registry, items: seq<ItemStack>, item: ItemStack): (r: Stored)
    ensures |r.items| == |items|
  {
    var first := Pass(reg, items, 0, item, false);
    Pass(reg, first.items, 0, first.leftover, true)
  }

  lemma {:induction false} PassConserves(reg: Registry, items: seq<ItemStack>, i: nat, item: ItemStack, empty: bool,
                                         key: Key)
    requires i <= |items| && AllWellFormed(items) && WellFormed(item)
    ensures var r := Pass(reg, items, i, item, empty);
            && AllWellFormed(r.items) && WellFormed(r.leftover)
            && Total(r.items, key) + Amount(r.leftover, key) == Total(items, key) + Amount(item, key)
            && r.leftover.count <= item.count
            && (r.leftover.count > 0 ==> r.leftover == item.(count := r.leftover.count))
    decreases |items| - i
  {
    if i == |items| || item.Empty() {
    } else if items[i].Empty() != empty {
      PassConserves(reg, items, i + 1, item, empty, key);
    } else {
      var a := AddTo(reg, items[i], item);
      AddConserves(reg, items[i], item, key);
      TotalUpdate(items, i, a.slot, key);
      PassConserves(reg, items[i := a.slot], i + 1, a.leftover, empty, key);
    }
  }

  lemma AddAllConserves(reg: Registry, items: seq<ItemStack>, item: ItemStack, key: Key)
    requires AllWellFormed(items) && WellFormed(item)
    ensures var r := AddAll(reg, items, item);
            && AllWellFormed(r.items) && WellFormed(r.leftover)
            && Total(r.items, key) + Amount(r.leftover, key) == Total(items, key) + Amount(item, key)
            && r.leftover.count <= item.count
            && (r.leftover.count > 0 ==> r.leftover == item.(count := r.leftover.count))
  {
    PassConserves(reg, items, 0, item, false, key);
    var first := Pass(reg, items, 0, item, false);
    PassConserves(reg, first.items, 0, first.leftover, true, key);
  }

  /** Room left in the stacks of the same kind from slot `i` on. */
  function MatchingFree(reg: Registry, items: seq<ItemStack>, i: nat, item: ItemStack): nat
    requires i <= |items|
    decreases |items| - i
  {
    if i == |items| then 0
    else
      var here := if !items[i].Empty() && SameKind(items[i], item) then FreeSpace(reg, items[i]) else 0;
      here + MatchingFree(reg, items, i + 1, item)
  }

  predicate HasEmptySlot(items: seq<ItemStack>, i: nat) {
    exists j :: i <= j < |items| && items[j].Empty()
  }

  lemma {:induction false} MatchingFreeBelow(reg: Registry, items: seq<ItemStack>, i: nat, k: nat, s: ItemStack,
                                             item: ItemStack)
    requires i < k <= |items|
    ensures MatchingFree(reg, items[i := s], k, item) == MatchingFree(reg, items, k, item)
    decreases |items| - k
  {
    if k < |items| {
      MatchingFreeBelow(reg, items, i, k + 1, s, item);
    }
  }

  lemma {:induction false} MatchingFreeKind(reg: Registry, items: seq<ItemStack>, k: nat, a: ItemStack, b: ItemStack)
    requires k <= |items| && SameKind(a, b)
    ensures MatchingFree(reg, items, k, a) == MatchingFree(reg, items, k, b)
    decreases |items| - k
  {
    if k < |items| {
      MatchingFreeKind(reg, items, k + 1, a, b);
    }
  }

  function LessBy(n: nat, m: nat): nat {
    if n <= m then 0 else n - m
  }

  /** Topping up leaves exactly what the matching stacks have no room for. */
  lemma {:induction false} TopUpLeftover(reg: Registry, items: seq<ItemStack>, i: nat, item: ItemStack)
    requires i <= |items| && WellFormed(item)
    ensures var r := Pass(reg, items, i, item, false);
            r.leftover.count == LessBy(item.count, MatchingFree(reg, items, i, item))
    decreases |items| - i
  {
    if i == |items| || item.Empty() {
    } else if items[i].Empty() {
      TopUpLeftover(reg, items, i + 1, item);
    } else {
      var a := AddTo(reg, items[i], item);
      AddConserves(reg, items[i], item, KeyOf(item));
      AddAccepts(reg, items[i], item);
      TopUpLeftover(reg, items[i := a.slot], i + 1, a.leftover);
      MatchingFreeBelow(reg, items, i, i + 1, a.slot, a.leftover);
      if !a.leftover.Empty() {
        MatchingFreeKind(reg, items, i + 1, a.leftover, item);
      }
    }
  }

  lemma {:induction false} TopUpKeepsEmptiness(reg: Registry, items: seq<ItemStack>, i: nat, item: ItemStack)
    requires i <= |items|
    ensures var r := Pass(reg, items, i, item, false);
            forall j :: 0 <= j < |items| ==> r.items[j].Empty() == items[j].Empty()
    decreases |items| - i
  {
    if i < |items| && !item.Empty() {
      if items[i].Empty() {
        TopUpKeepsEmptiness(reg, items, i + 1, item);
      } else {
        var a := AddTo(reg, items[i], item);
        TopUpKeepsEmptiness(reg, items[i := a.slot], i + 1, a.leftover);
      }
    }
  }

  lemma {:induction false} EmptySlotTakesAll(reg: Registry, items: seq<ItemStack>, i: nat, item: ItemStack)
    requires i <= |items|
    ensures var r := Pass(reg, items, i, item, true);
            r.leftover.count == if HasEmptySlot(items, i) then 0 else item.count
    decreases |items| - i
  {
    if i < |items| && !item.Empty() && !items[i].Empty() {
      EmptySlotTakesAll(reg, items, i + 1, item);
      assert HasEmptySlot(items, i) <==> HasEmptySlot(items, i + 1);
    }
  }

  /** Nothing is left if any slot is empty; otherwise what exceeds the room in matching stacks. */
  lemma AddAllLeftover(reg: Registry, items: seq<ItemStack>, item: ItemStack)
    requires WellFormed(item)
    ensures AddAll(reg, items, item).leftover.count ==
            if HasEmptySlot(items, 0) then 0 else LessBy(item.count, MatchingFree(reg, items, 0, item))
  {
    TopUpLeftover(reg, items, 0, item);
    TopUpKeepsEmptiness(reg, items, 0, item);
    var first := Pass(reg, items, 0, item, false);
    EmptySlotTakesAll(reg, first.items, 0, first.leftover);
    if HasEmptySlot(items, 0) {
      var j :| 0 <= j < |items| && items[j].Empty();
      assert first.items[j].Empty();
    }
    if HasEmptySlot(first.items, 0) {
      var j :| 0 <= j < |items| && first.items[j].Empty();
      assert items[j].Empty();
    }
  }

  /** A pass that leaves everything over has changed nothing. */
  lemma {:induction false} PassOfNothing(reg: Registry, items: seq<ItemStack>, i: nat, item: ItemStack, empty: bool)
    requires i <= |items| && AllWellFormed(items) && WellFormed(item)
    requires Pass(reg, items, i, item, empty).leftover.count == item.count
    ensures Pass(reg, items, i, item, empty) == Stored(items, item)
    decreases |items| - i
  {
    if i < |items| && !item.Empty() {
      if items[i].Empty() != empty {
        PassOfNothing(reg, items, i + 1, item, empty);
      } else {
        var a := AddTo(reg, items[i], item);
        AddConserves(reg, items[i], item, KeyOf(item));
        PassConserves(reg, items[i := a.slot], i + 1, a.leftover, empty, KeyOf(item));
        assert a == Added(items[i], item) && items[i := items[i]] == items;
        PassOfNothing(reg, items, i + 1, item, empty);
      }
    }
  }

  /** Adding changes nothing exactly when there is no empty slot and no room in matching stacks. */
  lemma NothingAddedIff(reg: Registry, items: seq<ItemStack>, item: ItemStack)
    requires AllWellFormed(items) && WellFormed(item) && !item.Empty()
    ensures AddAll(reg, items, item) == Stored(items, item)
            <==> !HasEmptySlot(items, 0) && MatchingFree(reg, items, 0, item) == 0
    ensures AddAll(reg, items, item).leftover.count == item.count ==> AddAll(reg, items, item) == Stored(items, item)
  {
    var first := Pass(reg, items, 0, item, false);
    AddAllLeftover(reg, items, item);
    PassConserves(reg, items, 0, item, false, KeyOf(item));
    PassConserves(reg, first.items, 0, first.leftover, true, KeyOf(item));
    if AddAll(reg, items, item).leftover.count == item.count {
      PassOfNothing(reg, items, 0, item, false);
      PassOfNothing(reg, items, 0, item, true);
    }
  }

  // ----- Which slots are filled -----

  lemma {:induction false} EmptySlotGets(reg: Registry, items: seq<ItemStack>, i: nat, k: nat, item: ItemStack)
    requires i <= k <= |items| && (forall j :: i <= j < k ==> !items[j].Empty())
    requires k < |items| ==> items[k].Empty()
    requires !item.Empty()
    ensures Pass(reg, items, i, item, true) ==
            if k < |items| then Stored(items[k := item], EMPTY_STACK) else Stored(items, item)
    decreases k - i
  {
    if i < k {
      EmptySlotGets(reg, items, i + 1, k, item);
    }
  }

  /** Empty slots stay empty, but for the first, which takes what the matching stacks have no room for. */
  lemma AddAllUsesFirstEmpty(reg: Registry, items: seq<ItemStack>, item: ItemStack, k: nat)
    requires AllWellFormed(items) && WellFormed(item)
    requires k < |items| && items[k].Empty() && forall j :: 0 <= j < k ==> !items[j].Empty()
    ensures var r, rest := AddAll(reg, items, item).items, LessBy(item.count, MatchingFree(reg, items, 0, item));
            && r[k] == (if rest == 0 then EMPTY_STACK else item.(count := rest))
            && forall j :: 0 <= j < |items| && j != k ==> r[j].Empty() == items[j].Empty()
  {
    var first := Pass(reg, items, 0, item, false);
    TopUpLeftover(reg, items, 0, item);
    TopUpKeepsEmptiness(reg, items, 0, item);
    PassConserves(reg, items, 0, item, false, KeyOf(item));
    assert first.items[k].Empty();
    if !first.leftover.Empty() {
      EmptySlotGets(reg, first.items, 0, k, first.leftover);
    }
  }

  /** Stack `j` was full before slot `k` was used. */
  ghost predicate FilledBefore(reg: Registry, items: seq<ItemStack>, r: seq<ItemStack>, item: ItemStack, j: int, k: int)
    requires |items| == |r|
  {
    0 <= j < k < |items| && !items[j].Empty() && SameKind(items[j], item) && r[k] != items[k] ==>
      FreeSpace(reg, r[j]) == 0
  }

  /** Slots are topped up in order: none is used before the matching ones in front of it are full. */
  lemma {:induction false} TopUpInOrder(reg: Registry, items: seq<ItemStack>, i: nat, item: ItemStack)
    requires i <= |items| && WellFormed(item)
    ensures var r := Pass(reg, items, i, item, false).items;
            && r[..i] == items[..i]
            && forall j, k {:trigger FilledBefore(reg, items, r, item, j, k)} ::
              i <= j < k < |items| ==> FilledBefore(reg, items, r, item, j, k)
    decreases |items| - i
  {
    if i < |items| && !item.Empty() {
      var r := Pass(reg, items, i, item, false).items;
      if items[i].Empty() {
        TopUpInOrder(reg, items, i + 1, item);
        assert r[..i] == r[..i + 1][..i];
      } else {
        var a := AddTo(reg, items[i], item);
        var items' := items[i := a.slot];
        LeftoverIsSameItem(reg, items[i], item);
        TopUpInOrder(reg, items', i + 1, a.leftover);
        assert r[..i] == r[..i + 1][..i] && items'[..i + 1][..i] == items[..i];
        assert r[..i + 1][i] == r[i] == a.slot;
        forall j, k | i <= j < k < |items| ensures FilledBefore(reg, items, r, item, j, k) {
          assert FilledBefore(reg, items', r, a.leftover, j, k);
        }
      }
    }
  }

  // ----- Counting and removing by name -----

  predicate Counts(s: ItemStack, item: ItemStack, matchMeta: bool) {
    s.name == item.name && (!matchMeta || s.meta == item.meta)
  }

  /** Items of the same name (and metadata, if asked for) in the first `n` slots. */
  function Held(items: seq<ItemStack>, n: nat, item: ItemStack, matchMeta: bool): nat
    requires n <= |items|
  {
    if n == 0 then 0
    else Held(items, n - 1, item, matchMeta) + (if Counts(items[n - 1], item, matchMeta) then items[n - 1].count else 0)
  }

  /** With metadata asked for, what is held is the total of that very kind. */
  lemma {:induction false} HeldOfKind(items: seq<ItemStack>, item: ItemStack)
    ensures Held(items, |items|, item, true) == Total(items, Key(item.name, item.meta))
  {
    if items != [] {
      HeldOfKind(items[..|items| - 1], item);
      HeldPrefix(items, |items| - 1, item, true);
    }
  }

  lemma {:induction false} HeldPrefix(items: seq<ItemStack>, n: nat, item: ItemStack, matchMeta: bool)
    requires n <= |items|
    ensures Held(items[..n], n, item, matchMeta) == Held(items, n, item, matchMeta)
    decreases n
  {
    if n > 0 {
      HeldPrefix(items, n - 1, item, matchMeta);
      HeldPrefix(items[..n], n - 1, item, matchMeta);
      assert items[..n][..n - 1] == items[..n - 1];
    }
  }

  /** The stacks with their metadata left out. */
  function Bare(items: seq<ItemStack>): (r: seq<ItemStack>)
    ensures |r| == |items| && forall i :: 0 <= i < |items| ==> r[i] == items[i].(meta := map[])
  {
    seq(|items|, i requires 0 <= i < |items| => items[i].(meta := map[]))
  }

  /** Otherwise it is what the total would be if there were no metadata. */
  lemma {:induction false} HeldByName(items: seq<ItemStack>, item: ItemStack)
    ensures Held(items, |items|, item, false) == Total(Bare(items), Key(item.name, map[]))
  {
    if items != [] {
      var pre := items[..|items| - 1];
      HeldByName(pre, item);
      HeldPrefix(items, |items| - 1, item, false);
      assert Bare(items)[..|items| - 1] == Bare(pre);
    }
  }

  /** Take up to `want` items of that name out of the first `n` slots, last slot first. */
  function Drain(items: seq<ItemStack>, n: nat, item: ItemStack, want: nat): (r: seq<ItemStack>)
    requires n <= |items|
    ensures |r| == |items|
    decreases n
  {
    if n == 0 || want == 0 then items
    else if items[n - 1].name != item.name then Drain(items, n - 1, item, want)
    else
      var t := Take(items[n - 1], want);
      Drain(items[n - 1 := t.rest], n - 1, item, LessBy(want, items[n - 1].count))
  }

  lemma {:induction false} HeldElsewhere(items: seq<ItemStack>, n: nat, k: nat, s: ItemStack, item: ItemStack,
                                         matchMeta: bool)
    requires n <= k < |items|
    ensures Held(items[k := s], n, item, matchMeta) == Held(items, n, item, matchMeta)
  {
    if n > 0 {
      HeldElsewhere(items, n - 1, k, s, item, matchMeta);
    }
  }

  /** Draining removes exactly the smaller of what is wanted and what is there, and touches no other name. */
  lemma {:induction false} DrainRemoves(items: seq<ItemStack>, n: nat, item: ItemStack, want: nat)
    requires n <= |items| && AllWellFormed(items)
    ensures var r := Drain(items, n, item, want);
            && AllWellFormed(r)
            && Held(r, n, item, false) == LessBy(Held(items, n, item, false), want)
            && (forall j :: 0 <= j < |items| && (items[j].name != item.name || j >= n) ==> r[j] == items[j])
    decreases n
  {
    if n > 0 && want > 0 {
      if items[n - 1].name != item.name {
        DrainRemoves(items, n - 1, item, want);
      } else {
        var t := Take(items[n - 1], want);
        TakeConserves(items[n - 1], want, KeyOf(item));
        var items' := items[n - 1 := t.rest];
        DrainRemoves(items', n - 1, item, LessBy(want, items[n - 1].count));
        HeldElsewhere(items, n - 1, n - 1, t.rest, item, false);
      }
    }
  }

  /** Slot `k` has become the poorer for draining, and only in number. */
  ghost predicate DrainedInOrder(items: seq<ItemStack>, r: seq<ItemStack>, n: nat, name: string, k: nat)
    requires k < |items| == |r| && n <= |items|
  {
    && (r[k] == items[k] || r[k] == EMPTY_STACK || r[k] == items[k].(count := r[k].count))
    && r[k].count <= items[k].count
    && (r[k] != items[k] ==> forall j :: k < j < n && items[j].name == name ==> r[j].Empty())
  }

  lemma DrainedBefore(items: seq<ItemStack>, r: seq<ItemStack>, n: nat, item: ItemStack, want: nat, k: nat)
    requires 0 < n <= |items| == |r| && k < |items| && want > 0 && WellFormed(items[n - 1])
    requires items[n - 1].name == item.name
    requires var items', left := items[n - 1 := Take(items[n - 1], want).rest], LessBy(want, items[n - 1].count);
             && DrainedInOrder(items', r, n - 1, item.name, k)
             && r[n - 1] == items'[n - 1] && (left == 0 ==> r == items')
    ensures DrainedInOrder(items, r, n, item.name, k)
  {
    TakeConserves(items[n - 1], want, KeyOf(item));
  }

  ghost predicate AllInOrder(items: seq<ItemStack>, r: seq<ItemStack>, n: nat, name: string)
    requires |items| == |r| && n <= |items|
  {
    forall k {:trigger DrainedInOrder(items, r, n, name, k)} :: 0 <= k < |items| ==>
      DrainedInOrder(items, r, n, name, k)
  }

  /** Draining is from the back: no slot gives anything before those of the name behind it are empty. */
  lemma {:induction false} DrainFromBack(items: seq<ItemStack>, n: nat, item: ItemStack, want: nat)
    requires n <= |items| && AllWellFormed(items)
    ensures AllInOrder(items, Drain(items, n, item, want), n, item.name)
    decreases n
  {
    var r := Drain(items, n, item, want);
    if n > 0 && want > 0 {
      if items[n - 1].name != item.name {
        assert r == Drain(items, n - 1, item, want);
        DrainFromBack(items, n - 1, item, want);
        assert AllInOrder(items, r, n - 1, item.name);
        forall k | 0 <= k < |items| ensures DrainedInOrder(items, r, n, item.name, k) {
          assert DrainedInOrder(items, r, n - 1, item.name, k);
        }
      } else {
        var t, left := Take(items[n - 1], want), LessBy(want, items[n - 1].count);
        TakeConserves(items[n - 1], want, KeyOf(item));
        var items' := items[n - 1 := t.rest];
        assert r == Drain(items', n - 1, item, left);
        DrainFromBack(items', n - 1, item, left);
        DrainRemoves(items', n - 1, item, left);
        assert AllInOrder(items', r, n - 1, item.name);
        forall k | 0 <= k < |items| ensures DrainedInOrder(items, r, n, item.name, k) {
          assert DrainedInOrder(items', r, n - 1, item.name, k);
          DrainedBefore(items, r, n, item, want, k);
        }
      }
    }
  }

  // ----- Putting together what is removed -----

  /** A stack that takes all of another, however full it is and whatever its metadata. */
  function Joined(reg: Registry, s: ItemStack, more: ItemStack): (r: ItemStack)
    requires s.count + more.count < 0x1_0000
  {
    var a := AddTo(reg, s, more);
    AddAccepts(reg, s, more);
    a.slot.(count := a.slot.count + a.leftover.count)
  }

  lemma JoinedHoldsBoth(reg: Registry, s: ItemStack, more: ItemStack)
    requires WellFormed(s) && WellFormed(more) && s.count + more.count < 0x1_0000
    ensures var r := Joined(reg, s, more);
            && WellFormed(r) && r.count == s.count + more.count
            && (s.count > 0 ==> r.name == s.name) && (s.count == 0 && more.count > 0 ==> r.name == more.name)
  {
    AddAccepts(reg, s, more);
    AddConserves(reg, s, more, KeyOf(s));
  }

  /** Slot `k` is the last to hold items of that name. */
  ghost predicate LastOfName(items: seq<ItemStack>, k: int, name: string) {
    && 0 <= k < |items| && items[k].name == name && items[k].count > 0
    && forall j :: k < j < |items| && items[j].name == name ==> items[j].count == 0
  }

  /** What has been taken has the wear and the metadata of the last stack of its name. */
  ghost predicate LikeTheLast(items: seq<ItemStack>, name: string, removed: ItemStack) {
    exists k :: LastOfName(items, k, name) && removed == items[k].(count := removed.count)
  }

  /** Nothing has been taken because the slots from `i` on hold nothing of that name. */
  ghost predicate NoneFrom(items: seq<ItemStack>, i: nat, name: string) {
    forall j :: i <= j < |items| && items[j].name == name ==> items[j].count == 0
  }

  /** The first stack taken decides what the others are added to. */
  lemma JoinedIsLikeTheLast(reg: Registry, items: seq<ItemStack>, i: nat, name: string, removed: ItemStack, n: nat)
    requires i < |items| && items[i].name == name && n > 0
    requires WellFormed(removed) && WellFormed(items[i]) && removed.count + Take(items[i], n).item.count < 0x1_0000
    requires if removed.count > 0 then LikeTheLast(items, name, removed) else NoneFrom(items, i + 1, name)
    ensures var r := Joined(reg, removed, Take(items[i], n).item);
            if r.count > 0 then LikeTheLast(items, name, r) else NoneFrom(items, i, name)
  {
    var r := Joined(reg, removed, Take(items[i], n).item);
    if removed.count > 0 {
      var k :| LastOfName(items, k, name) && removed == items[k].(count := removed.count);
      assert r == items[k].(count := r.count);
    } else if items[i].count > 0 {
      assert LastOfName(items, i, name) && r == items[i].(count := r.count);
    }
  }

  /** The state of a removal before slot `i - 1` is looked at. */
  ghost predicate Removing(start: seq<ItemStack>, items: seq<ItemStack>, i: nat, item: ItemStack, removed: ItemStack)
    requires i <= |items|
  {
    && |items| == |start| && AllWellFormed(items) && items[..i] == start[..i]
    && WellFormed(removed) && removed.count <= item.count
    && Drain(items, i, item, item.count - removed.count) == Drain(start, |start|, item, item.count)
    && (if removed.count == item.count then Held(start, |start|, item, false) >= item.count
        else Held(items, i, item, false) + removed.count == Held(start, |start|, item, false))
    && (removed.count > 0 ==> LikeTheLast(start, item.name, removed))
    && (removed.count == 0 && item.count > 0 ==> NoneFrom(start, i, item.name))
  }

  lemma RemovingSome(reg: Registry, start: seq<ItemStack>, items: seq<ItemStack>, i: nat, item: ItemStack,
                     removed: ItemStack)
    requires i < |items| && Removing(start, items, i + 1, item, removed) && items[i].name == item.name
    ensures var t := Take(items[i], item.count - removed.count);
            && removed.count + t.item.count < 0x1_0000
            && Removing(start, items[i := t.rest], i, item, Joined(reg, removed, t.item))
  {
    var n := item.count - removed.count;
    var t := Take(items[i], n);
    TakeConserves(items[i], n, KeyOf(items[i]));
    HeldElsewhere(items, i, i, t.rest, item, false);
    JoinedHoldsBoth(reg, removed, t.item);
    assert items[..i + 1][i] == items[i] == start[..i + 1][i];
    assert items[i := t.rest][..i] == items[..i + 1][..i] == start[..i + 1][..i];
    if n == 0 {
      assert items[i := items[i]] == items;
    } else {
      assert Drain(items, i + 1, item, n) == Drain(items[i := t.rest], i, item, LessBy(n, items[i].count));
      JoinedIsLikeTheLast(reg, start, i, item.name, removed, n);
    }
  }

  lemma RemovingNone(start: seq<ItemStack>, items: seq<ItemStack>, i: nat, item: ItemStack, removed: ItemStack)
    requires i < |items| && Removing(start, items, i + 1, item, removed) && items[i].name != item.name
    ensures Removing(start, items, i, item, removed)
  {
    assert items[..i + 1][i] == items[i] == start[..i + 1][i];
    assert items[..i] == items[..i + 1][..i] == start[..i + 1][..i];
  }

  // ----- Moving between two slots -----

  /** Outcome of a move; `moved` is the unsigned 32-bit number the code returns. */
  datatype Moved = Moved(src: ItemStack, dst: Option<ItemStack>, moved: int, swapped: bool)

  /**
   Put `item` into slot `d`, which is missing when the index is out of range, and what is
   left back onto `rest`; if nothing fitted and `swap` allows it, exchange the two slots.
   */
  function PutInto(reg: Registry, rest: ItemStack, item: ItemStack, d: Option<ItemStack>, swap: bool): Moved {
    var a := if d.Some? then AddTo(reg, d.value, item) else Added(EMPTY_STACK, item);
    var d' := if d.Some? then Some(a.slot) else None;
    if a.leftover.Empty() then Moved(rest, d', item.count, false)
    else
      var back := AddTo(reg, rest, a.leftover).slot;
      if a.leftover.count == item.count && swap then
        var returned := if d'.Some? then d'.value else back;
        Moved(returned, if d'.Some? then Some(back) else None, (item.count - back.count) % 0x1_0000_0000, true)
      else
        Moved(back, d', item.count - a.leftover.count, false)
  }

  function TakeUpTo(s: ItemStack, count: nat): Taken {
    if count == 0 then Taken(EMPTY_STACK, s) else Take(s, count)
  }

  /** Move up to `count` items (0: all) from stack `s` to slot `d`. */
  function MoveSlots(reg: Registry, s: ItemStack, d: Option<ItemStack>, count: nat, swap: bool): Moved {
    var t := TakeUpTo(s, count);
    if t.item.Empty() then Moved(t.rest, d, 0, false) else PutInto(reg, t.rest, t.item, d, swap)
  }

  function OptAmount(s: Option<ItemStack>, key: Key): nat {
    if s.Some? then Amount(s.value, key) else 0
  }

  /** How many of the items asked for the destination would accept. */
  function Acceptable(reg: Registry, s: ItemStack, d: Option<ItemStack>, count: nat): nat {
    if d.Some? then Accepted(reg, d.value, s.(count := if 0 < count < s.count then count else s.count)) else 0
  }

  /** Part of an oversized stack is taken and cannot all be put back: the case that loses items. */
  predicate PutBackOverflows(reg: Registry, s: ItemStack, d: Option<ItemStack>, count: nat) {
    && 0 < count < s.count
    && Acceptable(reg, s, d, count) < count
    && s.count - Acceptable(reg, s, d, count) > reg.Get(s.name).stackMax
  }

  lemma PutBackFits(reg: Registry, s: ItemStack, d: Option<ItemStack>, count: nat)
    requires WellFormed(s) && !PutBackOverflows(reg, s, d, count)
    ensures var t := TakeUpTo(s, count);
            var left := if d.Some? then AddTo(reg, d.value, t.item).leftover else t.item;
            AddTo(reg, t.rest, left).leftover.Empty()
  {
    var t := TakeUpTo(s, count);
    if d.Some? {
      AddAccepts(reg, d.value, t.item);
      AddConserves(reg, EMPTY_STACK, t.item, KeyOf(s));
    }
  }

  lemma MoveSlotsConserves(reg: Registry, s: ItemStack, d: Option<ItemStack>, count: nat, swap: bool, key: Key)
    requires WellFormed(s) && (d.Some? ==> WellFormed(d.value))
    requires !PutBackOverflows(reg, s, d, count)
    ensures var r := MoveSlots(reg, s, d, count, swap);
            && Amount(r.src, key) + OptAmount(r.dst, key) == Amount(s, key) + OptAmount(d, key)
            && WellFormed(r.src) && (r.dst.Some? <==> d.Some?) && (r.dst.Some? ==> WellFormed(r.dst.value))
  {
    TakeConserves(s, count, key);
    var t := TakeUpTo(s, count);
    assert WellFormed(t.rest) && WellFormed(t.item) && Amount(t.rest, key) + Amount(t.item, key) == Amount(s, key);
    if d.Some? {
      AddConserves(reg, d.value, t.item, key);
    }
    var a := if d.Some? then AddTo(reg, d.value, t.item) else Added(EMPTY_STACK, t.item);
    PutBackFits(reg, s, d, count);
    AddConserves(reg, t.rest, a.leftover, key);
  }

  lemma MoveSlotsLoses(reg: Registry, s: ItemStack, d: Option<ItemStack>, count: nat, swap: bool)
    requires WellFormed(s) && (d.Some? ==> WellFormed(d.value))
    requires PutBackOverflows(reg, s, d, count)
    ensures var r := MoveSlots(reg, s, d, count, swap);
            Amount(r.src, KeyOf(s)) + OptAmount(r.dst, KeyOf(s)) < Amount(s, KeyOf(s)) + OptAmount(d, KeyOf(s))
  {
  }

  lemma MoveSlotsNeverGains(reg: Registry, s: ItemStack, d: Option<ItemStack>, count: nat, swap: bool, key: Key)
    requires WellFormed(s) && (d.Some? ==> WellFormed(d.value))
    ensures var r := MoveSlots(reg, s, d, count, swap);
            Amount(r.src, key) + OptAmount(r.dst, key) <= Amount(s, key) + OptAmount(d, key)
  {
    var t := TakeUpTo(s, count);
    TakeConserves(s, count, key);
    if d.Some? {
      AddConserves(reg, d.value, t.item, key);
    }
    var a := if d.Some? then AddTo(reg, d.value, t.item) else Added(EMPTY_STACK, t.item);
    AddConserves(reg, t.rest, a.leftover, key);
  }

  /** A move between two slots keeps every kind's total, unless it overflows on the way back. */
  lemma MoveConservesIff(reg: Registry, s: ItemStack, d: Option<ItemStack>, count: nat, swap: bool)
    requires WellFormed(s) && (d.Some? ==> WellFormed(d.value))
    ensures (forall key :: var r := MoveSlots(reg, s, d, count, swap);
              Amount(r.src, key) + OptAmount(r.dst, key) == Amount(s, key) + OptAmount(d, key))
            <==> !PutBackOverflows(reg, s, d, count)
  {
    if PutBackOverflows(reg, s, d, count) {
      MoveSlotsLoses(reg, s, d, count, swap);
    } else {
      forall key ensures var r := MoveSlots(reg, s, d, count, swap);
                         Amount(r.src, key) + OptAmount(r.dst, key) == Amount(s, key) + OptAmount(d, key)
      {
        MoveSlotsConserves(reg, s, d, count, swap, key);
      }
    }
  }

  /**
   Without a swap the returned number is what reached the destination, and what left the
   source exactly unless some was lost on the way back.
   */
  lemma MovedIsExact(reg: Registry, s: ItemStack, d: Option<ItemStack>, count: nat, swap: bool)
    requires WellFormed(s) && (d.Some? ==> WellFormed(d.value))
    requires !MoveSlots(reg, s, d, count, swap).swapped
    ensures var r := MoveSlots(reg, s, d, count, swap);
            && (d.Some? ==> r.dst.value.count == d.value.count + r.moved)
            && 0 <= r.moved && (count > 0 ==> r.moved <= count)
            && r.src.count <= s.count - r.moved
            && (r.src.count == s.count - r.moved <==> !PutBackOverflows(reg, s, d, count))
  {
    var t := TakeUpTo(s, count);
    TakeConserves(s, count, KeyOf(s));
    if d.Some? {
      AddAccepts(reg, d.value, t.item);
      LeftoverIsSameItem(reg, d.value, t.item);
    }
    var left := if d.Some? then AddTo(reg, d.value, t.item).leftover else t.item;
    AddAccepts(reg, t.rest, left);
  }

  // ----- Moving to wherever there is room -----

  datatype Relocated = Relocated(src: seq<ItemStack>, dst: seq<ItemStack>)

  /** Between two different lists: take, add to `dst`, put back what is left. */
  function Relocate(reg: Registry, src: seq<ItemStack>, i: nat, dst: seq<ItemStack>, count: nat): Relocated
    requires i < |src|
  {
    var t := TakeUpTo(src[i], count);
    if t.item.Empty() then Relocated(src[i := t.rest], dst)
    else
      var a := AddAll(reg, dst, t.item);
      Relocated(src[i := AddTo(reg, t.rest, a.leftover).slot], a.items)
  }

  /** Within one list. */
  function Rearrange(reg: Registry, items: seq<ItemStack>, i: nat, count: nat): seq<ItemStack>
    requires i < |items|
  {
    var t := TakeUpTo(items[i], count);
    if t.item.Empty() then items[i := t.rest]
    else
      var a := AddAll(reg, items[i := t.rest], t.item);
      a.items[i := AddTo(reg, a.items[i], a.leftover).slot]
  }

  lemma TakeUpToConserves(s: ItemStack, count: nat, key: Key)
    requires WellFormed(s)
    ensures var t := TakeUpTo(s, count);
            && WellFormed(t.rest) && WellFormed(t.item)
            && Amount(t.rest, key) + Amount(t.item, key) == Amount(s, key)
            && t.rest.count + t.item.count == s.count
            && (t.item.count > 0 ==> t.item == s.(count := t.item.count))
            && (t.rest.count > 0 ==> t.rest == s.(count := t.rest.count))
  {
    TakeConserves(s, count, key);
  }

  /** What neither the destination nor, on the way back, the source slot has room for. */
  function RelocateLost(reg: Registry, s: ItemStack, dst: seq<ItemStack>, count: nat): ItemStack {
    var t := TakeUpTo(s, count);
    if t.item.Empty() then EMPTY_STACK else AddTo(reg, t.rest, AddAll(reg, dst, t.item).leftover).leftover
  }

  function RearrangeLost(reg: Registry, items: seq<ItemStack>, i: nat, count: nat): ItemStack
    requires i < |items|
  {
    var t := TakeUpTo(items[i], count);
    var a := AddAll(reg, items[i := t.rest], t.item);
    if t.item.Empty() then EMPTY_STACK else AddTo(reg, a.items[i], a.leftover).leftover
  }

  /** Between lists: the totals change by exactly what is lost on the way back. */
  lemma RelocateAccounts(reg: Registry, src: seq<ItemStack>, i: nat, dst: seq<ItemStack>, count: nat, key: Key)
    requires i < |src| && AllWellFormed(src) && AllWellFormed(dst)
    ensures var r := Relocate(reg, src, i, dst, count);
            Total(r.src, key) + Total(r.dst, key) + Amount(RelocateLost(reg, src[i], dst, count), key) ==
            Total(src, key) + Total(dst, key)
  {
    var t := TakeUpTo(src[i], count);
    TakeUpToConserves(src[i], count, key);
    if t.item.Empty() {
      TotalUpdate(src, i, t.rest, key);
    } else {
      var a := AddAll(reg, dst, t.item);
      AddAllConserves(reg, dst, t.item, key);
      AddConserves(reg, t.rest, a.leftover, key);
      TotalUpdate(src, i, AddTo(reg, t.rest, a.leftover).slot, key);
    }
  }

  /** Part of an oversized stack finds too little room, and what is left has none on the way back. */
  predicate WayBackOverflows(reg: Registry, s: ItemStack, dst: seq<ItemStack>, count: nat) {
    && 0 < count < s.count && !HasEmptySlot(dst, 0) && MatchingFree(reg, dst, 0, s) < count
    && s.count - MatchingFree(reg, dst, 0, s) > reg.Get(s.name).stackMax
  }

  lemma RelocateLosesIff(reg: Registry, s: ItemStack, dst: seq<ItemStack>, count: nat)
    requires WellFormed(s) && AllWellFormed(dst)
    ensures RelocateLost(reg, s, dst, count).count > 0 <==> WayBackOverflows(reg, s, dst, count)
    ensures RelocateLost(reg, s, dst, count).count > 0 ==> KeyOf(RelocateLost(reg, s, dst, count)) == KeyOf(s)
  {
    var t := TakeUpTo(s, count);
    TakeUpToConserves(s, count, KeyOf(s));
    if !t.item.Empty() {
      AddAllLeftover(reg, dst, t.item);
      AddAllConserves(reg, dst, t.item, KeyOf(s));
      MatchingFreeKind(reg, dst, 0, t.item, s);
      AddAccepts(reg, t.rest, AddAll(reg, dst, t.item).leftover);
      AddConserves(reg, t.rest, AddAll(reg, dst, t.item).leftover, KeyOf(s));
    }
  }

  /** A source stack within its limit always has room for what comes back. */
  lemma RelocateLosesNothing(reg: Registry, s: ItemStack, dst: seq<ItemStack>, count: nat)
    requires WellFormed(s) && AllWellFormed(dst) && s.count <= reg.Get(s.name).stackMax
    ensures RelocateLost(reg, s, dst, count).Empty()
  {
    TakeUpToConserves(s, count, KeyOf(s));
    AddAllConserves(reg, dst, TakeUpTo(s, count).item, KeyOf(s));
  }

  /** Within one list: the same account. */
  lemma RearrangeAccounts(reg: Registry, items: seq<ItemStack>, i: nat, count: nat, key: Key)
    requires i < |items| && AllWellFormed(items)
    ensures Total(Rearrange(reg, items, i, count), key) + Amount(RearrangeLost(reg, items, i, count), key) ==
            Total(items, key)
  {
    var t := TakeUpTo(items[i], count);
    TakeUpToConserves(items[i], count, key);
    TotalUpdate(items, i, t.rest, key);
    if !t.item.Empty() {
      var rest := items[i := t.rest];
      var a := AddAll(reg, rest, t.item);
      AddAllConserves(reg, rest, t.item, key);
      AddConserves(reg, a.items[i], a.leftover, key);
      TotalUpdate(a.items, i, AddTo(reg, a.items[i], a.leftover).slot, key);
    }
  }

  /** The slots before `i` are not touched; and if something is left, the matching slots are full. */
  lemma {:induction false} TopUpFills(reg: Registry, items: seq<ItemStack>, i: nat, item: ItemStack, k: nat)
    requires i <= |items| && WellFormed(item) && k < |items|
    ensures var r := Pass(reg, items, i, item, false);
            && (k < i ==> r.items[k] == items[k])
            && (i <= k && r.leftover.count > 0 && !items[k].Empty() && SameKind(items[k], item) ==>
                  FreeSpace(reg, r.items[k]) == 0 && SameKind(r.items[k], item))
    decreases |items| - i
  {
    if i < |items| && !item.Empty() {
      if items[i].Empty() {
        TopUpFills(reg, items, i + 1, item, k);
      } else {
        var a := AddTo(reg, items[i], item);
        LeftoverIsSameItem(reg, items[i], item);
        TopUpFills(reg, items[i := a.slot], i + 1, a.leftover, k);
      }
    }
  }

  lemma {:induction false} NoEmptySlotUntouched(reg: Registry, items: seq<ItemStack>, i: nat, item: ItemStack)
    requires i <= |items| && !HasEmptySlot(items, i)
    ensures Pass(reg, items, i, item, true) == Stored(items, item)
    decreases |items| - i
  {
    if i < |items| && !item.Empty() {
      assert !HasEmptySlot(items, i + 1);
      NoEmptySlotUntouched(reg, items, i + 1, item);
    }
  }

  /**
   Part of a stack, more than fits into the list it is in, even with the place the part has
   freed in its own slot.
   */
  predicate NoRoomAround(reg: Registry, items: seq<ItemStack>, i: nat, count: nat)
    requires i < |items|
  {
    && 0 < count < items[i].count && !HasEmptySlot(items, 0)
    && MatchingFree(reg, items[i := Remove(items[i], count)], 0, items[i]) < count
  }

  lemma RearrangeLosesIff(reg: Registry, items: seq<ItemStack>, i: nat, count: nat)
    requires i < |items| && AllWellFormed(items)
    ensures RearrangeLost(reg, items, i, count).count > 0 <==> NoRoomAround(reg, items, i, count)
    ensures RearrangeLost(reg, items, i, count).count > 0 ==>
              KeyOf(RearrangeLost(reg, items, i, count)) == KeyOf(items[i])
  {
    var s, t := items[i], TakeUpTo(items[i], count);
    TakeUpToConserves(s, count, KeyOf(s));
    if !t.item.Empty() {
      var rest := items[i := t.rest];
      var a := AddAll(reg, rest, t.item);
      AddAllLeftover(reg, rest, t.item);
      AddAllConserves(reg, rest, t.item, KeyOf(s));
      AddConserves(reg, a.items[i], a.leftover, KeyOf(s));
      if t.rest.Empty() {
        assert rest[i].Empty();
      } else {
        SameEmptiness(items, i, t.rest);
        MatchingFreeKind(reg, rest, 0, t.item, s);
        if a.leftover.count > 0 {
          NothingComesBack(reg, rest, i, t.item);
        }
      }
    }
  }

  lemma SameEmptiness(items: seq<ItemStack>, i: nat, s: ItemStack)
    requires i < |items| && items[i].Empty() == s.Empty()
    ensures HasEmptySlot(items[i := s], 0) <==> HasEmptySlot(items, 0)
  {
    var now := items[i := s];
    assert forall j :: 0 <= j < |items| ==> now[j].Empty() == items[j].Empty();
  }

  /** What adding to the whole list leaves over, no matching slot of it takes afterwards. */
  lemma NothingComesBack(reg: Registry, items: seq<ItemStack>, i: nat, item: ItemStack)
    requires i < |items| && AllWellFormed(items) && WellFormed(item) && !items[i].Empty() && SameKind(items[i], item)
    requires AddAll(reg, items, item).leftover.count > 0
    ensures var a := AddAll(reg, items, item); AddTo(reg, a.items[i], a.leftover).leftover == a.leftover
  {
    var first := Pass(reg, items, 0, item, false);
    AddAllLeftover(reg, items, item);
    TopUpKeepsEmptiness(reg, items, 0, item);
    PassConserves(reg, items, 0, item, false, KeyOf(item));
    TopUpFills(reg, items, 0, item, i);
    assert forall j :: 0 <= j < |items| ==> first.items[j].Empty() == items[j].Empty();
    NoEmptySlotUntouched(reg, first.items, 0, first.leftover);
  }

  lemma {:induction false} SlotIsPartOfFree(reg: Registry, items: seq<ItemStack>, k: nat, i: nat, item: ItemStack)
    requires k <= i < |items| && !items[i].Empty() && SameKind(items[i], item)
    ensures MatchingFree(reg, items, k, item) >= FreeSpace(reg, items[i])
    decreases i - k
  {
    if k < i {
      SlotIsPartOfFree(reg, items, k + 1, i, item);
    }
  }

  /** Within one list the emptied or reduced source slot itself takes everything back. */
  lemma RearrangeLosesNothing(reg: Registry, items: seq<ItemStack>, i: nat, count: nat)
    requires i < |items| && AllWellFormed(items) && items[i].count <= reg.Get(items[i].name).stackMax
    ensures RearrangeLost(reg, items, i, count).Empty()
  {
    var t := TakeUpTo(items[i], count);
    TakeUpToConserves(items[i], count, KeyOf(items[i]));
    var rest := items[i := t.rest];
    AddAllLeftover(reg, rest, t.item);
    if t.rest.Empty() {
      assert rest[i].Empty();
    } else if !t.item.Empty() {
      SlotIsPartOfFree(reg, rest, 0, i, t.item);
    }
  }

  // ----- Moves seen on whole lists -----

  function SlotAt(items: seq<ItemStack>, i: nat): Option<ItemStack> {
    if i < |items| then Some(items[i]) else None
  }

  function Placed(items: seq<ItemStack>, i: nat, s: Option<ItemStack>): seq<ItemStack> {
    if i < |items| && s.Some? then items[i := s.value] else items
  }

  lemma MoveBetweenLists(reg: Registry, src: seq<ItemStack>, i: nat, dst: seq<ItemStack>, j: nat, count: nat,
                         swap: bool, key: Key)
    requires i < |src| && AllWellFormed(src) && AllWellFormed(dst)
    requires !PutBackOverflows(reg, src[i], SlotAt(dst, j), count)
    ensures var r := MoveSlots(reg, src[i], SlotAt(dst, j), count, swap);
            && Total(src[i := r.src], key) + Total(Placed(dst, j, r.dst), key) == Total(src, key) + Total(dst, key)
            && AllWellFormed(src[i := r.src]) && AllWellFormed(Placed(dst, j, r.dst))
  {
    var r := MoveSlots(reg, src[i], SlotAt(dst, j), count, swap);
    MoveSlotsConserves(reg, src[i], SlotAt(dst, j), count, swap, key);
    TotalUpdate(src, i, r.src, key);
    if j < |dst| {
      TotalUpdate(dst, j, r.dst.value, key);
    }
  }

  lemma MoveWithinList(reg: Registry, items: seq<ItemStack>, i: nat, j: nat, count: nat, swap: bool, key: Key)
    requires i < |items| && i != j && AllWellFormed(items)
    requires !PutBackOverflows(reg, items[i], SlotAt(items, j), count)
    ensures var r := MoveSlots(reg, items[i], SlotAt(items, j), count, swap);
            && Total(Placed(items[i := r.src], j, r.dst), key) == Total(items, key)
            && AllWellFormed(Placed(items[i := r.src], j, r.dst))
  {
    var r := MoveSlots(reg, items[i], SlotAt(items, j), count, swap);
    MoveSlotsConserves(reg, items[i], SlotAt(items, j), count, swap, key);
    TotalUpdate(items, i, r.src, key);
    if j < |items| {
      TotalUpdate(items[i := r.src], j, r.dst.value, key);
    }
  }

  datatype MoveOutcome = MoveOutcome(src: seq<ItemStack>, dst: seq<ItemStack>, moved: int, swapped: bool)

  /** The move as seen on the lists; `same` tells that both are one list. */
  function MoveInLists(reg: Registry, src: seq<ItemStack>, i: nat, dst: seq<ItemStack>, j: nat, count: nat, swap: bool,
                       same: bool): MoveOutcome
  {
    if same && i == j then MoveOutcome(src, dst, count, false)
    else if i >= |src| then MoveOutcome(src, dst, 0, false)
    else
      var r := MoveSlots(reg, src[i], SlotAt(dst, j), count, swap);
      if same then
        var items := Placed(src[i := r.src], j, r.dst);
        MoveOutcome(items, items, r.moved, r.swapped)
      else
        MoveOutcome(src[i := r.src], Placed(dst, j, r.dst), r.moved, r.swapped)
  }

  /** The total of one kind over two lists, which may be one. */
  function Both(src: seq<ItemStack>, dst: seq<ItemStack>, same: bool, key: Key): nat {
    Total(src, key) + if same then 0 else Total(dst, key)
  }

  /** No kind of item has become more or fewer over the two lists, which may be one. */
  ghost predicate SameTotals(src0: seq<ItemStack>, src1: seq<ItemStack>, same: bool, dst0: seq<ItemStack>,
                             dst1: seq<ItemStack>)
  {
    forall key :: Both(src1, dst1, same, key) == Both(src0, dst0, same, key)
  }

  /** Indices in or out of range, partial fits, swaps, one list or two: totals are kept. */
  lemma MoveKeepsTotals(reg: Registry, src: seq<ItemStack>, i: nat, dst: seq<ItemStack>, j: nat, count: nat, swap: bool,
                        same: bool)
    requires AllWellFormed(src) && AllWellFormed(dst) && (same ==> dst == src)
    requires i < |src| && !(same && i == j) ==> !PutBackOverflows(reg, src[i], SlotAt(dst, j), count)
    ensures var r := MoveInLists(reg, src, i, dst, j, count, swap, same);
            SameTotals(src, r.src, same, dst, r.dst) && AllWellFormed(r.src) && AllWellFormed(r.dst)
  {
    if i >= |src| || (same && i == j) {
    } else if same {
      MoveWithinList(reg, src, i, j, count, swap, KeyOf(src[i]));
      forall key { MoveWithinList(reg, src, i, j, count, swap, key); }
    } else {
      MoveBetweenLists(reg, src, i, dst, j, count, swap, KeyOf(src[i]));
      forall key { MoveBetweenLists(reg, src, i, dst, j, count, swap, key); }
    }
  }

  /** A move never makes items, and one that overflows loses some. */
  lemma MoveChangesTotals(reg: Registry, src: seq<ItemStack>, i: nat, dst: seq<ItemStack>, j: nat, count: nat,
                          swap: bool, same: bool,
                          key: Key)
    requires AllWellFormed(src) && AllWellFormed(dst) && (same ==> dst == src) && i < |src| && !(same && i == j)
    ensures var r := MoveInLists(reg, src, i, dst, j, count, swap, same);
            && Both(r.src, r.dst, same, key) <= Both(src, dst, same, key)
            && (PutBackOverflows(reg, src[i], SlotAt(dst, j), count) && key == KeyOf(src[i]) ==>
                  Both(r.src, r.dst, same, key) < Both(src, dst, same, key))
  {
    var r := MoveSlots(reg, src[i], SlotAt(dst, j), count, swap);
    MoveSlotsNeverGains(reg, src[i], SlotAt(dst, j), count, swap, key);
    if PutBackOverflows(reg, src[i], SlotAt(dst, j), count) {
      MoveSlotsLoses(reg, src[i], SlotAt(dst, j), count, swap);
    }
    TotalUpdate(src, i, r.src, key);
    if j < |dst| {
      TotalUpdate(if same then src[i := r.src] else dst, j, r.dst.value, key);
    }
  }

  /**
   Indices in or out of range, partial fits, swaps, one list or two: totals are kept unless
   the move overflows.
   */
  lemma MoveKeepsTotalsIff(reg: Registry, src: seq<ItemStack>, i: nat, dst: seq<ItemStack>, j: nat, count: nat,
                           swap: bool,
                           same: bool)
    requires AllWellFormed(src) && AllWellFormed(dst) && (same ==> dst == src)
    ensures var r := MoveInLists(reg, src, i, dst, j, count, swap, same);
            SameTotals(src, r.src, same, dst, r.dst)
            <==> !(i < |src| && !(same && i == j) && PutBackOverflows(reg, src[i], SlotAt(dst, j), count))
  {
    if i < |src| && !(same && i == j) && PutBackOverflows(reg, src[i], SlotAt(dst, j), count) {
      MoveChangesTotals(reg, src, i, dst, j, count, swap, same, KeyOf(src[i]));
    } else {
      MoveKeepsTotals(reg, src, i, dst, j, count, swap, same);
    }
  }

  /** What is put wherever there is room keeps all totals, unless some of it fits nowhere, not even back. */
  lemma SomewhereKeepsTotalsIff(reg: Registry, src: seq<ItemStack>, i: nat, dst: seq<ItemStack>, count: nat)
    requires i < |src| && AllWellFormed(src) && AllWellFormed(dst)
    ensures SameTotals(src, Relocate(reg, src, i, dst, count).src, false, dst, Relocate(reg, src, i, dst, count).dst)
            <==> !WayBackOverflows(reg, src[i], dst, count)
    ensures SameTotals(src, Rearrange(reg, src, i, count), true, dst, dst) <==> !NoRoomAround(reg, src, i, count)
  {
    RelocateLosesIff(reg, src[i], dst, count);
    RearrangeLosesIff(reg, src, i, count);
    var r, one := Relocate(reg, src, i, dst, count), Rearrange(reg, src, i, count);
    var key0 := KeyOf(src[i]);
    RelocateAccounts(reg, src, i, dst, count, key0);
    RearrangeAccounts(reg, src, i, count, key0);
    assert WayBackOverflows(reg, src[i], dst, count) ==> Both(r.src, r.dst, false, key0) < Both(src, dst, false, key0);
    assert NoRoomAround(reg, src, i, count) ==> Both(one, dst, true, key0) < Both(src, dst, true, key0);
    forall key
      ensures !WayBackOverflows(reg, src[i], dst, count) ==>
                Both(r.src, r.dst, false, key) == Both(src, dst, false, key)
      ensures !NoRoomAround(reg, src, i, count) ==> Both(one, dst, true, key) == Both(src, dst, true, key)
    {
      RelocateAccounts(reg, src, i, dst, count, key);
      RearrangeAccounts(reg, src, i, count, key);
    }
  }

  /**
   Without a swap the returned number misstates what left the source exactly when a slot is
   moved onto itself, or some is lost on the way back.
   */
  lemma ReportedNumber(reg: Registry, src: seq<ItemStack>, i: nat, dst: seq<ItemStack>, j: nat, count: nat, swap: bool,
                       same: bool)
    requires AllWellFormed(src) && AllWellFormed(dst) && (same ==> dst == src) && i < |src|
    requires !MoveInLists(reg, src, i, dst, j, count, swap, same).swapped
    ensures var r := MoveInLists(reg, src, i, dst, j, count, swap, same);
            r.moved == src[i].count - r.src[i].count
            <==> if same && i == j then count == 0 else !PutBackOverflows(reg, src[i], SlotAt(dst, j), count)
  {
    if !(same && i == j) {
      MovedIsExact(reg, src[i], SlotAt(dst, j), count, swap);
    }
  }

  /** What is left of a stack of which `count` items have been taken and put back. */
  function Kept(reg: Registry, s: ItemStack, count: nat): nat
    requires count <= s.count
  {
    var limit := reg.Get(s.name).stackMax;
    if s.count > limit then Larger(limit, s.count - count) else s.count
  }

  lemma KeptIsGivenBack(reg: Registry, s: ItemStack, count: nat)
    requires WellFormed(s) && !s.Empty()
    ensures var t := TakeUpTo(s, count);
            AddTo(reg, t.rest, t.item).slot.count == if 0 < count < s.count then Kept(reg, s, count) else s.count
  {
    var t := TakeUpTo(s, count);
    TakeUpToConserves(s, count, KeyOf(s));
    AddAccepts(reg, t.rest, t.item);
  }

  /** A swap happens when nothing fits, and gives back all that was taken before exchanging the stacks. */
  lemma SwapGivesBack(reg: Registry, s: ItemStack, d: Option<ItemStack>, count: nat, swap: bool)
    requires WellFormed(s) && MoveSlots(reg, s, d, count, swap).swapped
    ensures var t := TakeUpTo(s, count);
            && !s.Empty()
            && MoveSlots(reg, s, d, count, swap).moved ==
               (t.item.count - AddTo(reg, t.rest, t.item).slot.count) % 0x1_0000_0000
            && t.item.count == if 0 < count < s.count then count else s.count
  {
    var t := TakeUpTo(s, count);
    TakeUpToConserves(s, count, KeyOf(s));
    if d.Some? {
      LeftoverIsSameItem(reg, d.value, t.item);
    }
  }

  /**
   Exchanging two stacks reports by how much what was asked for exceeds what was there to be
   exchanged, as an unsigned number: for a stack within its limit it is never above 0.
   */
  lemma SwapReportsDifference(reg: Registry, s: ItemStack, d: Option<ItemStack>, count: nat, swap: bool)
    requires WellFormed(s) && MoveSlots(reg, s, d, count, swap).swapped
    ensures MoveSlots(reg, s, d, count, swap).moved ==
            if 0 < count < s.count then (count - Kept(reg, s, count)) % 0x1_0000_0000 else 0
    ensures 0 < count < s.count <= reg.Get(s.name).stackMax ==>
              MoveSlots(reg, s, d, count, swap).moved == 0x1_0000_0000 - (s.count - count)
  {
    SwapGivesBack(reg, s, d, count, swap);
    KeptIsGivenBack(reg, s, count);
  }
}
