/** The inventory list object: its slots change in place, and two references may denote one list. */
module InventoryLists {
  import opened Common
  import opened Items
  import opened Stacks
  import opened Inventory

  /** After offering `left` of `item` to a slot: what the slots from here on have no room for. */
  lemma OfferedToSlot(reg: Registry, items: seq<ItemStack>, i: nat, left: ItemStack, item: ItemStack)
    requires i < |items| && WellFormed(left) && SameKind(left, item) && !items[i].Empty()
    ensures var rest := AddTo(reg, items[i], left).leftover;
            && WellFormed(rest) && rest.count <= left.count
            && LessBy(rest.count, MatchingFree(reg, items, i + 1, item)) ==
               LessBy(left.count, MatchingFree(reg, items, i, item))
            && (!rest.Empty() ==> SameKind(rest, item))
  {
    AddAccepts(reg, items[i], left);
    LeftoverIsSameItem(reg, items[i], left);
  }

  class InventoryList {
    const reg: Registry
    var items: seq<ItemStack>

    constructor (reg: Registry, size: nat)
      ensures this.reg == reg && items == seq(size, _ => EMPTY_STACK)
    {
      this.reg := reg;
      this.items := seq(size, _ => EMPTY_STACK);
    }

    /** Returns the old stack; out of range, the new one comes straight back. */
    method ChangeItem(i: nat, newItem: ItemStack) returns (oldItem: ItemStack)
      modifies this
      ensures items == Placed(old(items), i, Some(newItem))
      ensures oldItem == if i < |items| then old(items[i]) else newItem
    {
      if i >= |items| {
        return newItem;
      }
      oldItem := items[i];
      items := items[i := newItem];
    }

    method AddItemAt(i: nat, newItem: ItemStack) returns (leftover: ItemStack)
      modifies this
      ensures i >= |old(items)| ==> items == old(items) && leftover == newItem
      ensures i < |old(items)| ==> items == old(items)[i := AddTo(reg, old(items[i]), newItem).slot]
      ensures i < |old(items)| ==> leftover == AddTo(reg, old(items[i]), newItem).leftover
    {
      if i >= |items| {
        return newItem;
      }
      var r := AddTo(reg, items[i], newItem);
      items := items[i := r.slot];
      leftover := r.leftover;
    }

    method AddItem(newItem: ItemStack) returns (leftover: ItemStack)
      modifies this
      ensures items == AddAll(reg, old(items), newItem).items
      ensures leftover == AddAll(reg, old(items), newItem).leftover
    {
      leftover := newItem;
      if leftover.Empty() {
        return;
      }
      ghost var all := AddAll(reg, items, newItem);
      ghost var first := Pass(reg, items, 0, newItem, false);
      for i := 0 to |items|
        invariant |items| == |old(items)|
        invariant Pass(reg, items, i, leftover, false) == first
        invariant !leftover.Empty()
      {
        if !items[i].Empty() {
          leftover := AddItemAt(i, leftover);
          if leftover.Empty() {
            return;
          }
        }
      }
      for i := 0 to |items|
        invariant |items| == |old(items)|
        invariant Pass(reg, items, i, leftover, true) == all
        invariant !leftover.Empty()
      {
        if items[i].Empty() {
          leftover := AddItemAt(i, leftover);
          if leftover.Empty() {
            return;
          }
        }
      }
    }

    /** Whether the stack fits, and what would be left over. */
    method ItemFits(i: nat, newItem: ItemStack) returns (fits: bool, rest: ItemStack)
      ensures i >= |items| ==> !fits && rest == newItem
      ensures i < |items| ==> rest == AddTo(reg, items[i], newItem).leftover && fits == rest.Empty()
    {
      if i >= |items| {
        return false, newItem;
      }
      FitPredictsAdd(reg, items[i], newItem);
      rest := RestAfterFit(reg, items[i], newItem);
      fits := rest.Empty();
    }

    /**
     True exactly when adding the item would leave nothing over, although slots are visited
     in another order than adding does; an empty item fits wherever there is a slot.
     */
    method RoomForItem(item: ItemStack) returns (room: bool)
      requires WellFormed(item)
      ensures room <==> AddAll(reg, items, item).leftover.Empty() && (item.Empty() ==> |items| > 0)
    {
      var left := item;
      AddAllLeftover(reg, items, item);
      for i := 0 to |items|
        invariant i > 0 ==> !left.Empty() && !item.Empty()
        invariant WellFormed(left) && SameKind(left, item) && left.count <= item.count
        invariant forall j :: 0 <= j < i ==> !items[j].Empty()
        invariant LessBy(left.count, MatchingFree(reg, items, i, item)) ==
                  LessBy(item.count, MatchingFree(reg, items, 0, item))
      {
        var fits, rest := ItemFits(i, left);
        if items[i].Empty() {
          assert HasEmptySlot(items, 0);
        } else {
          OfferedToSlot(reg, items, i, left, item);
        }
        if fits {
          return true;
        }
        left := rest;
      }
      return false;
    }

    /** Whether the list holds at least `item.count` items of that name (and metadata). */
    method ContainsItem(item: ItemStack, matchMeta: bool) returns (found: bool)
      ensures found <==> Held(items, |items|, item, matchMeta) >= item.count
    {
      var count: nat := item.count;
      if count == 0 {
        return true;
      }
      for i := |items| downto 0
        invariant count > 0
        invariant Held(items, |items|, item, matchMeta) - Held(items, i, item, matchMeta) == item.count - count
      {
        if Counts(items[i], item, matchMeta) {
          if items[i].count >= count {
            return true;
          }
          count := count - items[i].count;
        }
      }
      return false;
    }

    /**
     Takes the requested number of items of that name, or all there are, from the back.  All
     of them come back with the wear and the metadata of the first stack there was any in.
     */
    method RemoveItem(item: ItemStack) returns (removed: ItemStack)
      requires AllWellFormed(items)
      modifies this
      ensures items == Drain(old(items), |old(items)|, item, item.count)
      ensures removed.count == item.count - LessBy(item.count, Held(old(items), |old(items)|, item, false))
      ensures if removed.count > 0 then LikeTheLast(old(items), item.name, removed) else removed == EMPTY_STACK
    {
      removed := EMPTY_STACK;
      assert items[..|items|] == items;
      for i := |items| downto 0
        invariant i <= |items| && Removing(old(items), items, i, item, removed)
      {
        if items[i].name == item.name {
          var stillToRemove := item.count - removed.count;
          RemovingSome(reg, old(items), items, i, item, removed);
          var t := Take(items[i], stillToRemove);
          items := items[i := t.rest];
          // Oversized stacks are allowed here.
          removed := Joined(reg, removed, t.item);
          if removed.count == item.count {
            return;
          }
        } else {
          RemovingNone(old(items), items, i, item, removed);
        }
      }
    }

    /** Takes up to `n` items off slot `i`. */
    method TakeItem(i: nat, n: nat) returns (taken: ItemStack)
      modifies this
      ensures i >= |old(items)| ==> items == old(items) && taken == EMPTY_STACK
      ensures i < |old(items)| ==>
                items == old(items)[i := Take(old(items[i]), n).rest] && taken == Take(old(items[i]), n).item
    {
      if i >= |items| {
        return EMPTY_STACK;
      }
      var t := Take(items[i], n);
      items := items[i := t.rest];
      taken := t.item;
    }

    /** The first step of both moves: everything for 0, at most `count` otherwise. */
    method TakeForMove(i: nat, count: nat) returns (item: ItemStack)
      modifies this
      ensures i >= |old(items)| ==> items == old(items) && item == EMPTY_STACK
      ensures i < |old(items)| ==> items == old(items)[i := TakeUpTo(old(items[i]), count).rest]
      ensures i < |old(items)| ==> item == TakeUpTo(old(items[i]), count).item
    {
      if count == 0 {
        item := ChangeItem(i, EMPTY_STACK);
      } else {
        item := TakeItem(i, count);
      }
    }

    method MoveItemSomewhere(i: nat, dest: InventoryList, count: nat)
      requires dest.reg == reg
      modifies this, dest
      ensures i >= |old(items)| ==> items == old(items) && dest.items == old(dest.items)
      ensures i < |old(items)| && dest != this ==>
                Relocated(items, dest.items) == Relocate(reg, old(items), i, old(dest.items), count)
      ensures i < |old(items)| && dest == this ==> items == Rearrange(reg, old(items), i, count)
    {
      var item1 := TakeForMove(i, count);
      if item1.Empty() {
        return;
      }
      var leftover := dest.AddItem(item1);
      if !leftover.Empty() {
        var _ := AddItemAt(i, leftover);
      } else {
        assert items[i := items[i]] == items;
      }
    }

    /** Puts the stack of slot `i` into slot `destI` and, in exchange, the one found there into slot `i`. */
    method Exchange(i: nat, dest: InventoryList, destI: nat) returns (item1: ItemStack)
      requires i < |items| && (dest == this ==> i != destI)
      modifies this, dest
      ensures item1 == old(items[i])
      ensures dest != this ==> dest.items == Placed(old(dest.items), destI, Some(item1))
      ensures dest != this ==>
                items == old(items)[i := if destI < |old(dest.items)| then old(dest.items)[destI] else item1]
      ensures dest == this ==>
                items == Placed(old(items), destI,
                                Some(item1))[i := if destI < |old(items)| then old(items)[destI] else item1]
    {
      item1 := ChangeItem(i, EMPTY_STACK);
      var item2 := dest.ChangeItem(destI, item1);
      var _ := ChangeItem(i, item2);
    }

    /** The second half of a move: `item` has just been taken off slot `i`. */
    method PutOver(i: nat, dest: InventoryList, destI: nat, item: ItemStack, swapIfNeeded: bool)
      returns (moved: int, didSwap: bool)
      requires dest.reg == reg && i < |items| && (dest == this ==> i != destI)
      modifies this, dest
      ensures var r := PutInto(reg, old(items[i]), item, SlotAt(old(dest.items), destI), swapIfNeeded);
              && moved == r.moved && didSwap == r.swapped
              && dest.items == Placed(if dest == this then old(items)[i := r.src] else old(dest.items), destI, r.dst)
              && (dest != this ==> items == old(items)[i := r.src])
    {
      didSwap := false;
      var item1 := dest.AddItemAt(destI, item);
      if !item1.Empty() {
        var nothingAdded := item1.count == item.count;
        var _ := AddItemAt(i, item1);
        if nothingAdded && swapIfNeeded {
          didSwap := true;
          item1 := Exchange(i, dest, destI);
        }
      }
      moved := (item.count - item1.count) % 0x1_0000_0000;
    }

    /** Returns the number the code reports, and whether the two stacks were exchanged. */
    method MoveItem(i: nat, dest: InventoryList, destI: nat, count: nat, swapIfNeeded: bool)
      returns (moved: int, didSwap: bool)
      requires dest.reg == reg
      modifies this, dest
      ensures MoveOutcome(items, dest.items, moved, didSwap) ==
              MoveInLists(reg, old(items), i, old(dest.items), destI, count, swapIfNeeded, dest == this)
    {
      if dest == this && i == destI {
        return count, false;
      }
      var item1 := TakeForMove(i, count);
      if item1.Empty() {
        return 0, false;
      }
      moved, didSwap := PutOver(i, dest, destI, item1, swapIfNeeded);
    }
  }
}
