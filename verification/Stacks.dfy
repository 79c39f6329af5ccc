/** Quantity operations on single item stacks, and what they conserve. */
module Stacks {
  import opened Common
  import opened Items

  // ----- The operations -----

  /** How many more items the stack may take. */
  function FreeSpace(reg: Registry, s: ItemStack): U16 {
    var limit := reg.Get(s.name).stackMax;
    if s.count >= limit then 0 else limit - s.count
  }

  /** `s` with `n` items fewer, fully reset when none are left. */
  function Remove(s: ItemStack, n: U16): ItemStack
    requires n <= s.count
  {
    if s.count == n then EMPTY_STACK else s.(count := s.count - n)
  }

  /** Same item as far as stacking is concerned: wear is not compared. */
  predicate SameKind(a: ItemStack, b: ItemStack) {
    a.name == b.name && a.meta == b.meta
  }

  datatype Added = Added(slot: ItemStack, leftover: ItemStack)

  function AddTo(reg: Registry, slot: ItemStack, item: ItemStack): Added {
    if item.Empty() then
      Added(slot, item)
    else if slot.Empty() then
      Added(item, EMPTY_STACK)
    else if !SameKind(slot, item) then
      Added(slot, item)
    else if item.count <= FreeSpace(reg, slot) then
      Added(slot.(count := slot.count + item.count), EMPTY_STACK)
    else
      var free := FreeSpace(reg, slot);
      Added(slot.(count := slot.count + free), Remove(item, free))
  }

  /** The part of `item` that would not fit into `slot`. */
  function RestAfterFit(reg: Registry, slot: ItemStack, item: ItemStack): ItemStack {
    if item.Empty() then item
    else if slot.Empty() then EMPTY_STACK
    else if !SameKind(slot, item) then item
    else if item.count <= FreeSpace(reg, slot) then EMPTY_STACK
    else Remove(item, FreeSpace(reg, slot))
  }

  datatype Taken = Taken(rest: ItemStack, item: ItemStack)

  /** Take up to `n` items off the stack. */
  function Take(s: ItemStack, n: nat): Taken {
    if n == 0 || s.count == 0 then Taken(s, EMPTY_STACK)
    else if n >= s.count then Taken(EMPTY_STACK, s)
    else Taken(Remove(s, n), s.(count := n))
  }

  // ----- Amounts -----

  /** What stacking distinguishes: the item name and its metadata. */
  datatype Key = Key(name: string, meta: map<string, string>)

  function KeyOf(s: ItemStack): Key {
    Key(s.name, s.meta)
  }

  function Amount(s: ItemStack, key: Key): nat {
    if KeyOf(s) == key then s.count else 0
  }

  // ----- Facts -----

  /** Asking whether an item fits predicts exactly what adding it would leave over. */
  lemma FitPredictsAdd(reg: Registry, slot: ItemStack, item: ItemStack)
    ensures RestAfterFit(reg, slot, item) == AddTo(reg, slot, item).leftover
  {
  }

  lemma AddConserves(reg: Registry, slot: ItemStack, item: ItemStack, key: Key)
    requires WellFormed(slot) && WellFormed(item)
    ensures var r := AddTo(reg, slot, item);
            && WellFormed(r.slot) && WellFormed(r.leftover)
            && Amount(r.slot, key) + Amount(r.leftover, key) == Amount(slot, key) + Amount(item, key)
            && r.leftover.count <= item.count
            && (r.leftover.count > 0 ==> r.leftover == item.(count := r.leftover.count))
  {
  }

  lemma LeftoverIsSameItem(reg: Registry, slot: ItemStack, item: ItemStack)
    requires WellFormed(item)
    ensures var left := AddTo(reg, slot, item).leftover;
            WellFormed(left) && (left.count > 0 ==> left == item.(count := left.count))
  {
  }

  /** How many of `item` the slot accepts. */
  function Accepted(reg: Registry, slot: ItemStack, item: ItemStack): nat {
    if slot.Empty() then item.count
    else if !SameKind(slot, item) then 0
    else if item.count <= FreeSpace(reg, slot) then item.count else FreeSpace(reg, slot)
  }

  lemma AddAccepts(reg: Registry, slot: ItemStack, item: ItemStack)
    ensures var r := AddTo(reg, slot, item);
            && r.leftover.count == item.count - Accepted(reg, slot, item)
            && (!item.Empty() ==> r.slot.count == slot.count + Accepted(reg, slot, item))
  {
  }

  /** A stack keeps what it has and is topped up to the limit of its item; an empty slot takes everything. */
  lemma AddIsExact(reg: Registry, slot: ItemStack, item: ItemStack)
    requires WellFormed(slot) && WellFormed(item)
    ensures var r, limit := AddTo(reg, slot, item), reg.Get(slot.name).stackMax;
            && (slot.count == 0 ==> r.slot == item && r.leftover == EMPTY_STACK)
            && (slot.count > 0 && slot.name == item.name && slot.meta == item.meta ==>
                  var sum := slot.count + item.count;
                  r.slot == slot.(count := Larger(slot.count, if sum < limit then sum else limit)))
            && (slot.count > 0 && !(slot.name == item.name && slot.meta == item.meta) ==>
                  r.slot == slot && r.leftover == item)
  {
  }

  lemma TakeConserves(s: ItemStack, n: nat, key: Key)
    requires WellFormed(s)
    ensures var t := Take(s, n);
            && WellFormed(t.rest) && WellFormed(t.item)
            && Amount(t.rest, key) + Amount(t.item, key) == Amount(s, key)
            && t.item.count == (if n < s.count then n else s.count)
            && t.rest.count + t.item.count == s.count
            && (t.item.count > 0 ==> t.item == s.(count := t.item.count))
            && (t.rest.count > 0 ==> t.rest == s.(count := t.rest.count))
  {
  }
}
