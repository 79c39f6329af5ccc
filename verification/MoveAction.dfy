/** The move action object: its fields and both lists change step by step as it is applied. */
module MoveAction {
  import opened Common
  import opened Items
  import opened Stacks
  import opened Inventory
  import opened InventoryLists
  import opened MoveRules
  import opened MoveSomewhere
  import opened MoveLimits

  /** Where a list lives; two locations are the same inventory when they are equal. */
  datatype Location = CurrentPlayer | Player(name: string) | NodeMeta(x: int, y: int, z: int) | Detached(name: string)

  /** The loop's state as the rules describe it agrees with the objects. */
  ghost predicate Shows(st: Run, src: seq<ItemStack>, dst: seq<ItemStack>, count: U16, moveCount: int, visits: nat,
                        aborted: bool)
  {
    && st.src == src && st.dst == dst && st.count == count && st.moveCount == moveCount
    && st.visits == visits && st.aborted == aborted
  }

  class IMoveAction {
    var fromInv: Location
    var fromList: string
    var fromI: int
    var toInv: Location
    var toList: string
    var toI: int
    var count: U16
    var moveSomewhere: bool
    var causedByMoveSomewhere: bool
    var moveCount: int

    constructor (fromInv: Location, fromList: string, fromI: int, toInv: Location, toList: string, toI: int, count: U16,
                 somewhere: bool)
      ensures this.fromInv == fromInv && this.fromList == fromList && this.fromI == fromI
      ensures this.toInv == toInv && this.toList == toList && this.toI == toI
      ensures this.count == count && moveSomewhere == somewhere && !causedByMoveSomewhere && moveCount == 0
    {
      this.fromInv, this.fromList, this.fromI := fromInv, fromList, fromI;
      this.toInv, this.toList, this.toI := toInv, toList, toI;
      this.count, this.moveSomewhere := count, somewhere;
      this.causedByMoveSomewhere, this.moveCount := false, 0;
    }

    method SwapDirections()
      modifies this`fromInv, this`fromList, this`fromI, this`toInv, this`toList, this`toI
      ensures fromInv == old(toInv) && fromList == old(toList) && fromI == old(toI)
      ensures toInv == old(fromInv) && toList == old(fromList) && toI == old(fromI)
    {
      fromInv, toInv := toInv, fromInv;
      fromList, toList := toList, fromList;
      fromI, toI := toI, fromI;
    }

    /** The directions of the action are as they were. */
    twostate predicate SameDirections()
      reads this
    {
      && fromInv == old(fromInv) && fromList == old(fromList) && fromI == old(fromI)
      && toInv == old(toInv) && toList == old(toList) && toI == old(toI)
    }

    /**
     The callbacks of one attempt: for a swap they run a second time with the directions
     reversed.  Returns the limits for source and destination and whether to swap.
     */
    method AskCallbacks(s: ItemStack, d: ItemStack, src: ItemStack, wantsSwap: bool, a: Answers)
      returns (take: int, put: int, allowSwap: bool)
      requires AtLeastMinusOne(a)
      modifies this`fromInv, this`fromList, this`fromI, this`toInv, this`toList, this`toI
      ensures SameDirections()
      ensures Granted(take, put, allowSwap) == Grant(wantsSwap, src.count, d.count, fromInv == toInv, a)
    {
      allowSwap := wantsSwap;
      if fromInv == toInv {
        take := a.take;
        allowSwap := allowSwap && (take == -1 || take >= src.count);
        if allowSwap {
          SwapDirections();
          put := a.swapTake;
          allowSwap := allowSwap && (put == -1 || put >= d.count);
          SwapDirections();
        } else {
          put := take;
        }
      } else {
        put := a.put;
        take := a.take;
        allowSwap := allowSwap && (take == -1 || take >= src.count) && (put == -1 || put >= src.count);
        if allowSwap {
          SwapDirections();
          allowSwap := allowSwap && (a.swapPut == -1 || a.swapPut >= d.count)
          && (a.swapTake == -1 || a.swapTake >= d.count);
          SwapDirections();
        }
      }
      if wantsSwap != allowSwap {
        take, put := 0, 0;
      }
    }

    /** An endless source gets its stack back; a displaced foreign stack is kept if there is room. */
    method RefillSource(listFrom: InventoryList, listTo: InventoryList, fromWas: ItemStack, toWas: ItemStack,
                        didSwap: bool)
      requires 0 <= fromI && fromI < |listFrom.items| && listFrom.reg == listTo.reg
      modifies listFrom, listTo
      ensures ListPair(listFrom.items, listTo.items) ==
              Refill(listFrom.reg, ListPair(old(listFrom.items), old(listTo.items)), fromI, fromWas, toWas,
                     moveCount > 0 || didSwap, causedByMoveSomewhere, listFrom == listTo)
    {
      if !causedByMoveSomewhere && fromWas.name != toWas.name {
        var i := 0;
        while i < |listTo.items| && !listTo.items[i].Empty()
          invariant 0 <= i <= |listTo.items|
          invariant PutAside(listTo.items, i, toWas) == PutAside(listTo.items, 0, toWas)
        {
          i := i + 1;
        }
        var _ := listTo.ChangeItem(i, toWas);
      }
      if moveCount > 0 || didSwap {
        var _ := listFrom.ChangeItem(fromI, EMPTY_STACK);
        var _ := listFrom.AddItemAt(fromI, fromWas);
      }
    }

    /** An endless destination gets its stack back, and the source loses what was asked for. */
    method ResetDestination(listFrom: InventoryList, listTo: InventoryList, fromWas: ItemStack, toWas: ItemStack)
      requires 0 <= fromI && fromI < |listFrom.items| && 0 <= toI && toI < |listTo.items| && listFrom.reg == listTo.reg
      modifies listFrom, listTo
      ensures ListPair(listFrom.items, listTo.items) ==
              Reset(listFrom.reg, ListPair(old(listFrom.items), old(listTo.items)), fromI, toI, fromWas, toWas, count,
                    listFrom == listTo)
    {
      var _ := listTo.ChangeItem(toI, EMPTY_STACK);
      var _ := listTo.AddItemAt(toI, toWas);
      var _ := listFrom.ChangeItem(fromI, EMPTY_STACK);
      var _ := listFrom.AddItemAt(fromI, fromWas);
      var _ := listFrom.TakeItem(fromI, count);
    }

    /**
     The checks before any callback: the ranges, the portion asked for, and what of it
     would fit.  `go` tells whether a move is to be attempted.
     */
    method Examine(listFrom: InventoryList, listTo: InventoryList, ghost a: Answers)
      returns (go: bool, srcItem: ItemStack, wantsSwap: bool)
      requires listTo.reg == listFrom.reg && AtLeastMinusOne(a)
      modifies this`moveCount
      ensures go ==> Attempted(listFrom.items, fromI, listTo.items, toI, listFrom == listTo)
      ensures go ==> var s, d := listFrom.items[fromI], listTo.items[toI];
                     && srcItem == Asked(s, count) && !srcItem.Empty()
                     && moveCount == srcItem.count - RestCount(listFrom.reg, s, d, count)
                     && !(causedByMoveSomewhere && moveCount == 0)
                     && wantsSwap == WantsSwap(listFrom.reg, s, d, count, causedByMoveSomewhere)
      ensures !go ==> Effect(listFrom.items, listTo.items, count, moveCount) ==
                      MoveRules.Apply(listFrom.reg, listFrom.items, fromI, listTo.items, toI, listFrom == listTo,
                                      fromInv == toInv, causedByMoveSomewhere, count, old(moveCount), a)
    {
      go, srcItem, wantsSwap := false, EMPTY_STACK, false;
      if fromI < 0 || |listFrom.items| <= fromI {
        return;
      }
      if toI < 0 || |listTo.items| <= toI {
        return;
      }
      if listFrom == listTo && fromI == toI {
        return;
      }
      srcItem := listFrom.items[fromI];
      if count > 0 && count < srcItem.count {
        srcItem := srcItem.(count := count);
      }
      if srcItem.Empty() {
        return;
      }
      var fits, restItem := listTo.ItemFits(toI, srcItem);
      FitPredictsAdd(listTo.reg, listTo.items[toI], srcItem);
      wantsSwap := !fits && restItem.count == srcItem.count && !causedByMoveSomewhere;
      moveCount := srcItem.count - restItem.count;
      if causedByMoveSomewhere && moveCount == 0 {
        return;
      }
      go := true;
    }

    /** Everything before the actual move, down to the count the callbacks leave. */
    method Decide(listFrom: InventoryList, listTo: InventoryList, a: Answers)
      returns (go: bool, oldCount: U16, take: int, put: int, allowSwap: bool)
      requires listTo.reg == listFrom.reg && AtLeastMinusOne(a)
      modifies this
      ensures SameDirections() && moveSomewhere == old(moveSomewhere)
              && causedByMoveSomewhere == old(causedByMoveSomewhere)
      ensures !go ==> Effect(listFrom.items, listTo.items, count, moveCount) ==
                      MoveRules.Apply(listFrom.reg, listFrom.items, fromI, listTo.items, toI, listFrom == listTo,
                                      fromInv == toInv, causedByMoveSomewhere, old(count), old(moveCount), a)
      ensures go ==> Attempted(listFrom.items, fromI, listTo.items, toI, listFrom == listTo)
      ensures go ==> var v := Judge(listFrom.reg, listFrom.items[fromI], listTo.items[toI], old(count),
                                    causedByMoveSomewhere, fromInv == toInv, a);
                     v.Proceed? && v == Proceed(count, allowSwap, take, put, v.moveCount) && count > 0
      ensures go && causedByMoveSomewhere ==> oldCount == old(count)
    {
      oldCount, take, put, allowSwap := count, 0, 0, false;
      var srcItem, wantsSwap;
      go, srcItem, wantsSwap := Examine(listFrom, listTo, a);
      if !go {
        return;
      }
      var s, d := listFrom.items[fromI], listTo.items[toI];
      if wantsSwap {
        // A swap affects the entire stack.
        srcItem := s;
        count := srcItem.count;
      }
      take, put, allowSwap := AskCallbacks(s, d, srcItem, wantsSwap, a);
      oldCount := count;
      count := Cap(Cap(srcItem.count, take), put);
      count := Cap(count, s.count);
      if count == 0 {
        if causedByMoveSomewhere {
          moveCount := 0;
        }
        go := false;
      }
    }

    /** The actual move, and what follows it for unlimited sources and destinations. */
    method Execute(listFrom: InventoryList, listTo: InventoryList, after: U16, take: int, put: int, allowSwap: bool)
      requires listTo.reg == listFrom.reg && Attempted(listFrom.items, fromI, listTo.items, toI, listFrom == listTo)
      requires causedByMoveSomewhere || after == count
      requires MoveSlots(listFrom.reg, listFrom.items[fromI], Some(listTo.items[toI]), count, allowSwap).swapped ==
               allowSwap
      modifies this`count, this`moveCount, listFrom, listTo
      ensures Effect(listFrom.items, listTo.items, count, moveCount) ==
              Perform(listFrom.reg, old(listFrom.items), fromI, old(listTo.items), toI, listFrom == listTo,
                      causedByMoveSomewhere, old(count), after, allowSwap, take, put)
    {
      var s, d := listFrom.items[fromI], listTo.items[toI];
      var moved, didSwap := listFrom.MoveItem(fromI, listTo, toI, count, allowSwap);
      moveCount := moved;
      if causedByMoveSomewhere {
        count := after;
      }
      assert allowSwap == didSwap;
      if take == -1 {
        RefillSource(listFrom, listTo, s, d, didSwap);
      }
      if put == -1 {
        ResetDestination(listFrom, listTo, s, d);
      }
    }

    /** One move between two slots. */
    method ApplyOnce(listFrom: InventoryList, listTo: InventoryList, a: Answers)
      requires listTo.reg == listFrom.reg && AtLeastMinusOne(a)
      requires AllWellFormed(listFrom.items) && AllWellFormed(listTo.items)
      modifies this, listFrom, listTo
      ensures SameDirections() && moveSomewhere == old(moveSomewhere)
              && causedByMoveSomewhere == old(causedByMoveSomewhere)
      ensures Effect(listFrom.items, listTo.items, count, moveCount) ==
              MoveRules.Apply(listFrom.reg, old(listFrom.items), fromI, old(listTo.items), toI, listFrom == listTo,
                              fromInv == toInv, causedByMoveSomewhere, old(count), old(moveCount), a)
      ensures NonNegative(a) && !causedByMoveSomewhere
              && 0 <= fromI < |old(listFrom.items)| && 0 <= toI < |old(listTo.items)|
              && !(listFrom == listTo && fromI == toI) ==>
                MovedAsAllowed(listFrom.reg, old(listFrom.items), fromI, old(listTo.items), toI, listFrom == listTo,
                               fromInv == toInv, old(count), a, ListPair(listFrom.items, listTo.items))
    {
      if NonNegative(a) {
        ApplyMovesAsAllowed(listFrom.reg, listFrom.items, fromI, listTo.items, toI, listFrom == listTo,
                            fromInv == toInv, count, moveCount, a);
      }
      ghost var count0 := count;
      var go, oldCount, take, put, allowSwap := Decide(listFrom, listTo, a);
      if go {
        SwapAsAnnounced(listFrom.reg, listFrom.items[fromI], listTo.items[toI], count0, causedByMoveSomewhere,
                        fromInv == toInv, a);
        Execute(listFrom, listTo, if causedByMoveSomewhere then oldCount else count, take, put, allowSwap);
      }
    }

    /** One visit: the nested application of the action, the assertion, and the reduced count. */
    method AddToSlot(listFrom: InventoryList, listTo: InventoryList, destI: nat, visits: nat, answers: Oracle,
                     ghost st: Run)
      returns (aborted: bool, ghost st': Run)
      requires listTo.reg == listFrom.reg && Answering(answers) && destI < |listTo.items|
      requires AllWellFormed(listFrom.items) && AllWellFormed(listTo.items)
      requires causedByMoveSomewhere && moveCount >= 0
      requires Shows(st, listFrom.items, listTo.items, count, moveCount, visits, false)
      modifies this, listFrom, listTo
      ensures fromInv == old(fromInv) && fromList == old(fromList) && fromI == old(fromI)
      ensures toInv == old(toInv) && toList == old(toList) && causedByMoveSomewhere
      ensures AllWellFormed(listFrom.items) && AllWellFormed(listTo.items) && moveCount >= 0
      ensures |listTo.items| == |old(listTo.items)|
      ensures st' == Visit(listFrom.reg, st, fromI, destI, listFrom == listTo, fromInv == toInv, answers)
      ensures Shows(st', listFrom.items, listTo.items, count, moveCount, visits + 1, aborted)
    {
      ApplyKeepsForm(listFrom.reg, listFrom.items, fromI, listTo.items, destI, listFrom == listTo, fromInv == toInv,
                     true,
                     count, moveCount, answers(visits));
      st' := Visit(listFrom.reg, st, fromI, destI, listFrom == listTo, fromInv == toInv, answers);
      toI := destI;
      ApplyOnce(listFrom, listTo, answers(visits));
      aborted := moveCount > count;
      if !aborted {
        count := count - moveCount;
      }
    }

    /**
     One pass of the move-somewhere loop over the occupied, or the empty, slots.  `st` is
     the loop's state as the rules describe it.
     */
    method AddToSlots(listFrom: InventoryList, listTo: InventoryList, empty: bool, visits: nat, answers: Oracle,
                      ghost st: Run)
      returns (visits': nat, aborted: bool, ghost st': Run)
      requires listTo.reg == listFrom.reg && Answering(answers)
      requires AllWellFormed(listFrom.items) && AllWellFormed(listTo.items)
      requires causedByMoveSomewhere && moveCount >= 0
      requires Shows(st, listFrom.items, listTo.items, count, moveCount, visits, false)
      modifies this, listFrom, listTo
      ensures fromInv == old(fromInv) && fromList == old(fromList) && fromI == old(fromI)
      ensures toInv == old(toInv) && toList == old(toList) && causedByMoveSomewhere
      ensures AllWellFormed(listFrom.items) && AllWellFormed(listTo.items) && moveCount >= 0
      ensures |listTo.items| == |old(listTo.items)|
      ensures st' ==
              Visits(listFrom.reg, st, fromI, 0, SizeAsSigned(|old(listTo.items)|), empty, listFrom == listTo,
                     fromInv == toInv, answers)
      ensures Shows(st', listFrom.items, listTo.items, count, moveCount, visits', aborted)
    {
      visits', aborted, st' := visits, false, st;
      var destSize := SizeAsSigned(|listTo.items|);
      ghost var goal := Visits(listFrom.reg, st, fromI, 0, destSize, empty, listFrom == listTo, fromInv == toInv,
                               answers);
      var destI := 0;
      while destI < destSize && count > 0 && !aborted
        invariant fromInv == old(fromInv) && fromList == old(fromList) && fromI == old(fromI)
        invariant toInv == old(toInv) && toList == old(toList) && causedByMoveSomewhere
        invariant AllWellFormed(listFrom.items) && AllWellFormed(listTo.items) && moveCount >= 0
        invariant destI >= 0 && |listTo.items| == |old(listTo.items)|
        invariant Shows(st', listFrom.items, listTo.items, count, moveCount, visits', aborted)
        invariant goal ==
                  Visits(listFrom.reg, st', fromI, destI, destSize, empty, listFrom == listTo, fromInv == toInv,
                         answers)
      {
        if listTo.items[destI].Empty() == empty {
          aborted, st' := AddToSlot(listFrom, listTo, destI, visits', answers, st');
          visits' := visits' + 1;
        }
        destI := destI + 1;
      }
    }

    /**
     The whole action.  A missing list ends it at once.  `aborted` reports that the assertion
     inside the move-somewhere loop failed; nothing more happens then.
     */
    method Apply(listFrom: InventoryList?, listTo: InventoryList?, answers: Oracle) returns (aborted: bool)
      requires listFrom != null && listTo != null ==>
                 listTo.reg == listFrom.reg && AllWellFormed(listFrom.items) && AllWellFormed(listTo.items)
      requires Answering(answers) && moveCount >= 0 && !causedByMoveSomewhere
      modifies this, listFrom, listTo
      ensures SameDirections() && moveSomewhere == old(moveSomewhere) && !causedByMoveSomewhere
      ensures listFrom == null || listTo == null ==> !aborted
      ensures listFrom != null && listTo == null ==> listFrom.items == old(listFrom.items)
      ensures listFrom == null && listTo != null ==> listTo.items == old(listTo.items)
      ensures listFrom != null && listTo != null && !moveSomewhere ==>
                !aborted && Effect(listFrom.items, listTo.items, count, moveCount) ==
                            MoveRules.Apply(listFrom.reg, old(listFrom.items), fromI, old(listTo.items), toI,
                                            listFrom == listTo,
                                            fromInv == toInv, false, old(count), old(moveCount), answers(0))
      ensures listFrom != null && listTo != null && moveSomewhere ==>
                var first := Run(old(listFrom.items), old(listTo.items), old(count), old(moveCount), 0, 0, false);
                var r := Everywhere(listFrom.reg, first, fromI, SizeAsSigned(|old(listTo.items)|), listFrom == listTo,
                                    fromInv == toInv, answers);
                aborted == r.aborted && listFrom.items == r.src && listTo.items == r.dst && count == old(count)
    {
      aborted := false;
      if listFrom == null || listTo == null {
        return;
      }
      if !moveSomewhere {
        ApplyOnce(listFrom, listTo, answers(0));
        return;
      }
      var oldToI, oldCount := toI, count;
      causedByMoveSomewhere := true;
      moveSomewhere := false;
      ghost var st := Run(listFrom.items, listTo.items, count, moveCount, 0, 0, false);
      // First all the occupied slots, then all the empty ones.
      var visits;
      visits, aborted, st := AddToSlots(listFrom, listTo, false, 0, answers, st);
      if !aborted {
        visits, aborted, st := AddToSlots(listFrom, listTo, true, visits, answers, st);
      }
      toI := oldToI;
      count := oldCount;
      causedByMoveSomewhere := false;
      moveSomewhere := true;
    }

    /**
     The client's guess: only for moves within the current player's inventory, made on the
     lists directly and without asking anyone.
     */
    method ClientApply(listFrom: InventoryList?, listTo: InventoryList?, fromIsPlayer: bool, toIsPlayer: bool)
      requires -0x8000 <= fromI < 0x8000 && -0x8000 <= toI < 0x8000
      requires listFrom != null && listTo != null ==> listTo.reg == listFrom.reg
      modifies listFrom, listTo
      ensures listFrom != null && (listTo == null || !fromIsPlayer || !toIsPlayer) ==>
                listFrom.items == old(listFrom.items)
      ensures listTo != null && (listFrom == null || !fromIsPlayer || !toIsPlayer) ==> listTo.items == old(listTo.items)
      ensures fromIsPlayer && toIsPlayer && listFrom != null && listTo != null && !moveSomewhere ==>
                var r := Predicted(listFrom.reg, old(listFrom.items), fromI, old(listTo.items), toI, listFrom == listTo,
                                   count);
                listFrom.items == r.src && listTo.items == r.dst
      ensures listFrom != null && listTo != null && moveSomewhere && !(0 <= fromI < |old(listFrom.items)|) ==>
                |old(listFrom.items)| <= 0xFFFF_8000 ==>
                  listFrom.items == old(listFrom.items) && listTo.items == old(listTo.items)
      ensures fromIsPlayer && toIsPlayer && listFrom != null && listTo != null && moveSomewhere
              && 0 <= fromI < |old(listFrom.items)| ==>
                if listFrom == listTo then listFrom.items == Rearrange(listFrom.reg, old(listFrom.items), fromI, count)
                else
                  Relocated(listFrom.items, listTo.items) ==
                  Relocate(listFrom.reg, old(listFrom.items), fromI, old(listTo.items), count)
    {
      if !fromIsPlayer || !toIsPlayer || listFrom == null || listTo == null {
        return;
      }
      if !moveSomewhere {
        var _, _ := listFrom.MoveItem(Unsigned(fromI), listTo, Unsigned(toI), count, true);
      } else {
        listFrom.MoveItemSomewhere(Unsigned(fromI), listTo, count);
      }
    }
  }
}
