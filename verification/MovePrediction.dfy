/**
 The client's prediction of the move-somewhere loop, for stacks of any size: exactly when it
 is right.
 */
module MovePrediction {
  import opened Common
  import opened Items
  import opened Stacks
  import opened Inventory
  import opened MoveRules
  import opened MoveSomewhere
  import opened MoveOutcomes

  // ----- Visits when everything is permitted -----

  /** With nothing left to move, the lists stay as they are. */
  lemma {:induction false} IdleVisits(reg: Registry, st: Run, i: int, j: nat, empty: bool, sameInv: bool,
                                      answers: Oracle)
    requires AllPermitted(answers) && InForm(st, i) && !Moving(st, i)
    ensures var r := Visits(reg, st, i, j, |st.dst|, empty, false, sameInv, answers);
            r.src == st.src && r.dst == st.dst && !Moving(r, i)
    decreases |st.dst| - j
  {
    if j < |st.dst| && st.count > 0 && !st.aborted {
      IdleVisits(reg, if st.dst[j].Empty() != empty then st else Visit(reg, st, i, j, false, sameInv, answers),
                 i, j + 1, empty, sameInv, answers);
    }
  }

  // ----- Slots that take nothing -----

  /** The slots from `j` to before `k` that a pass visits take no items like `s`. */
  ghost predicate NoneTakes(reg: Registry, items: seq<ItemStack>, j: nat, k: nat, empty: bool, s: ItemStack) {
    j <= k <= |items| && forall q :: j <= q < k && items[q].Empty() == empty ==> !empty && !HasRoom(reg, items[q], s)
  }

  lemma {:induction false} VisitsSkip(reg: Registry, st: Run, i: int, j: nat, k: nat, empty: bool, sameInv: bool,
                                      answers: Oracle)
    returns (mid: Run)
    requires AllPermitted(answers) && Moving(st, i) && NoneTakes(reg, st.dst, j, k, empty, st.src[i])
    ensures mid == st.(moveCount := mid.moveCount, visits := mid.visits)
    ensures Visits(reg, st, i, j, |st.dst|, empty, false, sameInv, answers)
            == Visits(reg, mid, i, k, |st.dst|, empty, false, sameInv, answers)
    decreases k - j
  {
    if j == k {
      mid := st;
    } else if st.dst[j].Empty() != empty {
      mid := VisitsSkip(reg, st, i, j + 1, k, empty, sameInv, answers);
    } else {
      FilledVisit(reg, st, i, j, sameInv, answers);
      var r := Visit(reg, st, i, j, false, sameInv, answers);
      assert AddTo(reg, st.dst[j], Asked(st.src[i], st.count)).slot == st.dst[j] && st.dst[j := st.dst[j]] == st.dst;
      mid := VisitsSkip(reg, r, i, j + 1, k, empty, sameInv, answers);
    }
  }

  lemma {:induction false} PassSkips(reg: Registry, items: seq<ItemStack>, j: nat, k: nat, item: ItemStack, empty: bool)
    requires NoneTakes(reg, items, j, k, empty, item) && WellFormed(item)
    ensures Pass(reg, items, j, item, empty) == Pass(reg, items, k, item, empty)
    decreases k - j
  {
    if j < k && !item.Empty() {
      PassSkips(reg, items, j + 1, k, item, empty);
      if items[j].Empty() == empty {
        assert AddTo(reg, items[j], item) == Added(items[j], item) && items[j := items[j]] == items;
      }
    }
  }

  // ----- In step with the client -----

  /**
   The source slot holds what the client keeps back, `rest`, and what it has in `hand`, with
   room for both; and the server still wants what the client has in hand.
   */
  ghost predicate InStep(reg: Registry, st: Run, i: int, src: seq<ItemStack>, rest: ItemStack, hand: ItemStack) {
    && InForm(st, i) && !st.aborted && WellFormed(rest) && WellFormed(hand)
    && |src| == |st.src| && st.src == src[i := AddTo(reg, rest, hand).slot]
    && (rest.Empty() ==> hand.count <= st.count)
    && (!rest.Empty() ==> hand.count == st.count)
    && (!rest.Empty() && !hand.Empty() ==>
          rest == hand.(count := rest.count) && rest.count + hand.count <= reg.Get(hand.name).stackMax)
  }

  lemma VisitInStep(reg: Registry, st: Run, i: int, src: seq<ItemStack>, rest: ItemStack, hand: ItemStack, j: int,
                    sameInv: bool, answers: Oracle)
    requires AllPermitted(answers) && InStep(reg, st, i, src, rest, hand) && !hand.Empty() && 0 <= j < |st.dst|
    ensures var r, a := Visit(reg, st, i, j, false, sameInv, answers), AddTo(reg, st.dst[j], hand);
            InStep(reg, r, i, src, rest, a.leftover) && r.dst == st.dst[j := a.slot]
  {
    assert Asked(st.src[i], st.count) == hand;
    FilledVisit(reg, st, i, j, sameInv, answers);
    AddAccepts(reg, st.dst[j], hand);
    AddConserves(reg, st.dst[j], hand, KeyOf(hand));
    assert TakeUpTo(st.src[i], hand.count).rest == rest;
  }

  lemma {:induction false} VisitsInStep(reg: Registry, st: Run, i: int, src: seq<ItemStack>, rest: ItemStack,
                                        hand: ItemStack,
                                        j: nat, empty: bool, sameInv: bool, answers: Oracle)
    requires AllPermitted(answers) && InStep(reg, st, i, src, rest, hand) && j <= |st.dst|
    ensures var r, p := Visits(reg, st, i, j, |st.dst|, empty, false, sameInv, answers),
                        Pass(reg, st.dst, j, hand, empty);
            && r.dst == p.items && r.src == src[i := AddTo(reg, rest, p.leftover).slot]
            && (if p.leftover.Empty() then InForm(r, i) && !Moving(r, i) else InStep(reg, r, i, src, rest, p.leftover))
    decreases |st.dst| - j
  {
    if hand.Empty() {
      IdleVisits(reg, st, i, j, empty, sameInv, answers);
    } else if j < |st.dst| {
      if st.dst[j].Empty() != empty {
        VisitsInStep(reg, st, i, src, rest, hand, j + 1, empty, sameInv, answers);
      } else {
        VisitInStep(reg, st, i, src, rest, hand, j, sameInv, answers);
        VisitsInStep(reg, Visit(reg, st, i, j, false, sameInv, answers), i, src, rest,
                     AddTo(reg, st.dst[j], hand).leftover,
                     j + 1, empty, sameInv, answers);
      }
    }
  }

  /** From slot `k` of the first pass on in step, the server ends with the client's lists. */
  lemma InStepToTheEnd(reg: Registry, st: Run, i: int, src: seq<ItemStack>, rest: ItemStack, hand: ItemStack, k: nat,
                       sameInv: bool, answers: Oracle)
    requires AllPermitted(answers) && InStep(reg, st, i, src, rest, hand) && k <= |st.dst|
    ensures var mid, p := Visits(reg, st, i, k, |st.dst|, false, false, sameInv, answers),
                          Pass(reg, st.dst, k, hand, false);
            var r, q := Visits(reg, mid, i, 0, |st.dst|, true, false, sameInv, answers),
                        Pass(reg, p.items, 0, p.leftover, true);
            r.dst == q.items && r.src == src[i := AddTo(reg, rest, q.leftover).slot]
  {
    VisitsInStep(reg, st, i, src, rest, hand, k, false, sameInv, answers);
    var mid, p := Visits(reg, st, i, k, |st.dst|, false, false, sameInv, answers), Pass(reg, st.dst, k, hand, false);
    if p.leftover.Empty() {
      IdleVisits(reg, mid, i, 0, true, sameInv, answers);
    } else {
      VisitsInStep(reg, mid, i, src, rest, p.leftover, 0, true, sameInv, answers);
    }
  }

  // ----- When the prediction is right -----

  ghost predicate Agrees(reg: Registry, first: Run, i: int, sameInv: bool, answers: Oracle)
    requires Answering(answers) && 0 <= i < |first.src|
  {
    var server := Everywhere(reg, first, i, |first.dst|, false, sameInv, answers);
    Relocated(server.src, server.dst) == Relocate(reg, first.src, i, first.dst, first.count)
  }

  /** All of the stack asked for, or a stack within its limit. */
  lemma SafeAgrees(reg: Registry, first: Run, i: int, sameInv: bool, answers: Oracle)
    requires AllPermitted(answers) && Moving(first, i)
    requires first.count >= first.src[i].count || first.src[i].count <= reg.Get(first.src[i].name).stackMax
    ensures Agrees(reg, first, i, sameInv, answers)
  {
    var s := first.src[i];
    var t := TakeUpTo(s, first.count);
    TakeUpToConserves(s, first.count, KeyOf(s));
    assert AddTo(reg, t.rest, t.item).slot == s && first.src[i := s] == first.src;
    InStepToTheEnd(reg, first, i, first.src, t.rest, t.item, 0, sameInv, answers);
  }

  /** Part of a stack above its limit is asked for. */
  ghost predicate PartOfOversized(reg: Registry, first: Run, i: int) {
    Moving(first, i) && first.count < first.src[i].count && first.src[i].count > reg.Get(first.src[i].name).stackMax
  }

  lemma FirstEmpty(items: seq<ItemStack>) returns (k: nat)
    requires HasEmptySlot(items, 0)
    ensures k < |items| && items[k].Empty() && forall q :: 0 <= q < k ==> !items[q].Empty()
  {
    k := 0;
    while !items[k].Empty()
      invariant 0 <= k < |items| && HasEmptySlot(items, k)
      invariant forall q :: 0 <= q < k ==> !items[q].Empty()
      decreases |items| - k
    {
      k := k + 1;
    }
  }

  /** Only an empty slot can take anything: it takes all, but without one the client drops items. */
  lemma NoTopUp(reg: Registry, first: Run, i: int, sameInv: bool, answers: Oracle)
    requires AllPermitted(answers) && PartOfOversized(reg, first, i)
    requires FirstRoom(reg, first.dst, 0, first.src[i]) == |first.dst|
    ensures Agrees(reg, first, i, sameInv, answers) <==> HasEmptySlot(first.dst, 0)
  {
    var s, dst := first.src[i], first.dst;
    var t := TakeUpTo(s, first.count);
    var mid := VisitsSkip(reg, first, i, 0, |dst|, false, sameInv, answers);
    PassSkips(reg, dst, 0, |dst|, t.item, false);
    if HasEmptySlot(dst, 0) {
      var k := FirstEmpty(dst);
      var at := VisitsSkip(reg, mid, i, 0, k, true, sameInv, answers);
      PassSkips(reg, dst, 0, k, t.item, true);
      FilledVisit(reg, at, i, k, sameInv, answers);
      IdleVisits(reg, Visit(reg, at, i, k, false, sameInv, answers), i, k + 1, true, sameInv, answers);
    } else {
      var end := VisitsSkip(reg, mid, i, 0, |dst|, true, sameInv, answers);
      PassSkips(reg, dst, 0, |dst|, t.item, true);
      assert Relocate(reg, first.src, i, dst, first.count).src[i] == AddTo(reg, t.rest, t.item).slot;
    }
  }

  /** `r` is what `first` becomes when slot `k` is topped up. */
  ghost predicate ToppedUp(reg: Registry, first: Run, r: Run, i: int, k: nat)
    requires InForm(first, i) && k < |first.dst|
  {
    var t := TakeUpTo(first.src[i], first.count);
    var a, n := AddTo(reg, first.dst[k], t.item), Accepted(reg, first.dst[k], t.item);
    && InForm(r, i) && !r.aborted && 0 < n <= first.count && r.count == first.count - n && r.moveCount == n
    && WellFormed(a.leftover) && a.leftover.count == r.count
    && (r.count > 0 ==> a.leftover == t.item.(count := r.count))
    && r.src == first.src[i := AddTo(reg, t.rest, a.leftover).slot] && r.dst == first.dst[k := a.slot]
  }

  lemma TopUp(reg: Registry, first: Run, at: Run, i: int, k: nat, sameInv: bool, answers: Oracle)
    requires AllPermitted(answers) && PartOfOversized(reg, first, i)
    requires at == first.(moveCount := at.moveCount, visits := at.visits)
    requires k < |first.dst| && HasRoom(reg, first.dst[k], first.src[i])
    ensures var r := Visit(reg, at, i, k, false, sameInv, answers);
            && ToppedUp(reg, first, r, i, k) && NoGain(first.src, r.src, false, first.dst, r.dst)
            && (PutBackOverflows(reg, first.src[i], Some(first.dst[k]), first.count) ==>
                  Both(r.src, r.dst, false, KeyOf(first.src[i])) <
                  Both(first.src, first.dst, false, KeyOf(first.src[i])))
  {
    var t := TakeUpTo(first.src[i], first.count);
    TakeUpToConserves(first.src[i], first.count, KeyOf(first.src[i]));
    FilledVisit(reg, at, i, k, sameInv, answers);
    AddAccepts(reg, first.dst[k], t.item);
    AddConserves(reg, first.dst[k], t.item, KeyOf(t.item));
    MoveTotalsIff(reg, first.src, i, first.dst, k, first.count, false, false);
  }

  /** Both sides come to the first slot with room, `k`, and top it up. */
  lemma FirstTopUp(reg: Registry, first: Run, i: int, k: nat, sameInv: bool, answers: Oracle) returns (r: Run)
    requires AllPermitted(answers) && PartOfOversized(reg, first, i)
    requires k == FirstRoom(reg, first.dst, 0, first.src[i]) < |first.dst|
    ensures ToppedUp(reg, first, r, i, k) && NoGain(first.src, r.src, false, first.dst, r.dst)
    ensures PutBackOverflows(reg, first.src[i], Some(first.dst[k]), first.count) ==>
              Both(r.src, r.dst, false, KeyOf(first.src[i])) < Both(first.src, first.dst, false, KeyOf(first.src[i]))
    ensures Visits(reg, first, i, 0, |first.dst|, false, false, sameInv, answers)
            == Visits(reg, r, i, k + 1, |first.dst|, false, false, sameInv, answers)
    ensures var t := TakeUpTo(first.src[i], first.count);
            Pass(reg, first.dst, 0, t.item, false)
            == Pass(reg, r.dst, k + 1, AddTo(reg, first.dst[k], t.item).leftover, false)
  {
    var t := TakeUpTo(first.src[i], first.count);
    TakeUpToConserves(first.src[i], first.count, KeyOf(first.src[i]));
    var at := VisitsSkip(reg, first, i, 0, k, false, sameInv, answers);
    PassSkips(reg, first.dst, 0, k, t.item, false);
    TopUp(reg, first, at, i, k, sameInv, answers);
    r := Visit(reg, at, i, k, false, sameInv, answers);
  }

  /** The first slot takes enough for the rest to have room in the source: all goes well. */
  lemma TopUpAgrees(reg: Registry, first: Run, i: int, k: nat, sameInv: bool, answers: Oracle)
    requires AllPermitted(answers) && PartOfOversized(reg, first, i)
    requires k == FirstRoom(reg, first.dst, 0, first.src[i]) < |first.dst|
    requires !PutBackOverflows(reg, first.src[i], Some(first.dst[k]), first.count)
    ensures Agrees(reg, first, i, sameInv, answers)
  {
    var t := TakeUpTo(first.src[i], first.count);
    var r := FirstTopUp(reg, first, i, k, sameInv, answers);
    InStepToTheEnd(reg, r, i, first.src, t.rest, AddTo(reg, first.dst[k], t.item).leftover, k + 1, sameInv, answers);
  }

  lemma VisitReduces(reg: Registry, st: Run, i: int, j: int, sameInv: bool, answers: Oracle)
    requires AllPermitted(answers) && Moving(st, i) && 0 <= j < |st.dst|
    ensures var r := Visit(reg, st, i, j, false, sameInv, answers);
            && InForm(r, i) && |r.dst| == |st.dst| && r.src[i].count <= st.src[i].count
            && (st.dst[j].Empty() || HasRoom(reg, st.dst[j], st.src[i]) ==> r.src[i].count < st.src[i].count)
            && (!st.dst[j].Empty() && !HasRoom(reg, st.dst[j], st.src[i]) ==>
                  Moving(r, i) && r.src == st.src && r.dst == st.dst)
  {
    FilledVisit(reg, st, i, j, sameInv, answers);
    var hand := Asked(st.src[i], st.count);
    AddAccepts(reg, st.dst[j], hand);
    TakeUpToConserves(st.src[i], hand.count, KeyOf(hand));
    AddConserves(reg, TakeUpTo(st.src[i], hand.count).rest, AddTo(reg, st.dst[j], hand).leftover, KeyOf(hand));
    assert st.dst[j := st.dst[j]] == st.dst;
  }

  /** Visits never add to the source, and one that finds room takes from it. */
  lemma {:induction false} VisitsReduce(reg: Registry, st: Run, i: int, j: nat, empty: bool, sameInv: bool,
                                        answers: Oracle)
    requires AllPermitted(answers) && InForm(st, i) && j <= |st.dst|
    ensures var r := Visits(reg, st, i, j, |st.dst|, empty, false, sameInv, answers);
            && InForm(r, i) && r.src[i].count <= st.src[i].count
            && (Moving(st, i)
                && (if empty then HasEmptySlot(st.dst, j) else MatchingFree(reg, st.dst, j, st.src[i]) > 0) ==>
                  r.src[i].count < st.src[i].count)
    decreases |st.dst| - j
  {
    if !Moving(st, i) {
      IdleVisits(reg, st, i, j, empty, sameInv, answers);
    } else if j < |st.dst| {
      if st.dst[j].Empty() != empty {
        VisitsReduce(reg, st, i, j + 1, empty, sameInv, answers);
      } else {
        VisitReduces(reg, st, i, j, sameInv, answers);
        VisitsReduce(reg, Visit(reg, st, i, j, false, sameInv, answers), i, j + 1, empty, sameInv, answers);
      }
    }
  }

  /** Whether some slot after `k` still takes any. */
  predicate MoreToCome(reg: Registry, dst: seq<ItemStack>, k: nat, s: ItemStack)
    requires k < |dst|
  {
    HasEmptySlot(dst, 0) || MatchingFree(reg, dst, k + 1, s) > 0
  }

  lemma SameToCome(reg: Registry, dst: seq<ItemStack>, k: nat, slot: ItemStack, s: ItemStack)
    requires k < |dst| && !dst[k].Empty() && !slot.Empty()
    ensures HasEmptySlot(dst[k := slot], 0) <==> HasEmptySlot(dst, 0)
    ensures MatchingFree(reg, dst[k := slot], k + 1, s) == MatchingFree(reg, dst, k + 1, s)
  {
    SameEmptiness(dst, k, slot);
    MatchingFreeBelow(reg, dst, k, k + 1, slot, s);
  }

  /** After the overflow nothing else is taken: the client overflows in the same way. */
  lemma OverflowAlike(reg: Registry, first: Run, i: int, k: nat, sameInv: bool, answers: Oracle)
    requires AllPermitted(answers) && PartOfOversized(reg, first, i)
    requires k == FirstRoom(reg, first.dst, 0, first.src[i]) < |first.dst|
    requires PutBackOverflows(reg, first.src[i], Some(first.dst[k]), first.count)
    requires !MoreToCome(reg, first.dst, k, first.src[i])
    ensures Agrees(reg, first, i, sameInv, answers)
  {
    var t := TakeUpTo(first.src[i], first.count);
    var a := AddTo(reg, first.dst[k], t.item);
    var r := FirstTopUp(reg, first, i, k, sameInv, answers);
    SameToCome(reg, first.dst, k, a.slot, first.src[i]);
    assert FirstRoom(reg, r.dst, k + 1, first.src[i]) == |r.dst|;
    var mid := VisitsSkip(reg, r, i, k + 1, |r.dst|, false, sameInv, answers);
    var end := VisitsSkip(reg, mid, i, 0, |r.dst|, true, sameInv, answers);
    PassSkips(reg, r.dst, k + 1, |r.dst|, a.leftover, false);
    PassSkips(reg, r.dst, 0, |r.dst|, a.leftover, true);
  }

  /** What does not go back fills the source slot up. */
  lemma FullSource(reg: Registry, rest: ItemStack, left: ItemStack)
    requires !rest.Empty() && SameKind(rest, left) && AddTo(reg, rest, left).leftover.count > 0
    ensures AddTo(reg, rest, left).slot.count == rest.count + FreeSpace(reg, rest)
  {
  }

  /** Something else is taken: the server has lost items the client has not, or has fewer left in the source. */
  lemma OverflowDiffers(reg: Registry, first: Run, i: int, k: nat, sameInv: bool, answers: Oracle)
    requires AllPermitted(answers) && PartOfOversized(reg, first, i)
    requires k == FirstRoom(reg, first.dst, 0, first.src[i]) < |first.dst|
    requires PutBackOverflows(reg, first.src[i], Some(first.dst[k]), first.count)
    requires MoreToCome(reg, first.dst, k, first.src[i])
    ensures !Agrees(reg, first, i, sameInv, answers)
  {
    var s := first.src[i];
    var t := TakeUpTo(s, first.count);
    var a := AddTo(reg, first.dst[k], t.item);
    TakeUpToConserves(s, first.count, KeyOf(s));
    var r := FirstTopUp(reg, first, i, k, sameInv, answers);
    FullSource(reg, t.rest, a.leftover);
    SameToCome(reg, first.dst, k, a.slot, s);
    MatchingFreeKind(reg, r.dst, k + 1, s, r.src[i]);
    var mid := Visits(reg, r, i, k + 1, |r.dst|, false, false, sameInv, answers);
    ServerEnd(reg, r, i, k + 1, sameInv, answers);
    var server := Visits(reg, mid, i, 0, |r.dst|, true, false, sameInv, answers);
    var client := Relocate(reg, first.src, i, first.dst, first.count);
    RelocateAccounts(reg, first.src, i, first.dst, first.count, KeyOf(s));
    var left := AddAll(reg, first.dst, t.item).leftover;
    AddAllConserves(reg, first.dst, t.item, KeyOf(s));
    if RelocateLost(reg, s, first.dst, first.count).count > 0 {
      FullSource(reg, t.rest, left);
      assert client.src[i].count == r.src[i].count > server.src[i].count;
    } else {
      assert Both(server.src, server.dst, false, KeyOf(s)) < Both(client.src, client.dst, false, KeyOf(s));
    }
  }

  /** From within the first pass on: the source gets smaller, and no total larger. */
  lemma ServerEnd(reg: Registry, r: Run, i: int, j: nat, sameInv: bool, answers: Oracle)
    requires AllPermitted(answers) && Moving(r, i) && j <= |r.dst| && r.moveCount >= 0
    requires HasEmptySlot(r.dst, 0) || MatchingFree(reg, r.dst, j, r.src[i]) > 0
    ensures var mid := Visits(reg, r, i, j, |r.dst|, false, false, sameInv, answers);
            var server := Visits(reg, mid, i, 0, |r.dst|, true, false, sameInv, answers);
            && InForm(server, i) && server.src[i].count < r.src[i].count
            && NoGain(r.src, server.src, false, r.dst, server.dst)
  {
    var mid := Visits(reg, r, i, j, |r.dst|, false, false, sameInv, answers);
    var server := Visits(reg, mid, i, 0, |r.dst|, true, false, sameInv, answers);
    VisitsReduce(reg, r, i, j, false, sameInv, answers);
    VisitsReduce(reg, mid, i, 0, true, sameInv, answers);
    if MatchingFree(reg, r.dst, j, r.src[i]) == 0 {
      assert FirstRoom(reg, r.dst, j, r.src[i]) == |r.dst|;
      var same := VisitsSkip(reg, r, i, j, |r.dst|, false, sameInv, answers);
    }
    PermittedIsLimited(answers);
    PassNeverGains(reg, r, i, j, |r.dst|, false, false, sameInv, answers);
    if !mid.aborted {
      PassNeverGains(reg, mid, i, 0, |r.dst|, true, false, sameInv, answers);
      forall key ensures Both(server.src, server.dst, false, key) <= Both(r.src, r.dst, false, key) {
        assert Both(mid.src, mid.dst, false, key) <= Both(r.src, r.dst, false, key);
      }
    }
  }

  /**
   Part of an oversized stack is moved, and either no slot takes any, or the first to take
   some takes too little for the rest to go back while another slot would take more.
   */
  predicate SomewhereDiffers(reg: Registry, s: ItemStack, dst: seq<ItemStack>, count: nat) {
    && 0 < count < s.count && s.count > reg.Get(s.name).stackMax
    && var k := FirstRoom(reg, dst, 0, s);
       if k == |dst| then !HasEmptySlot(dst, 0)
       else PutBackOverflows(reg, s, Some(dst[k]), count) && MoreToCome(reg, dst, k, s)
  }

  /**
   With everything permitted and between different lists, for any stack and any number but
   0: the server's slot-by-slot loop ends with the very lists of the client's take, add and
   put back, except in the cases just described.
   */
  lemma SomewherePredictionAgreesIff(reg: Registry, first: Run, i: int, sameInv: bool, answers: Oracle)
    requires AllPermitted(answers) && InForm(first, i) && !first.aborted && first.count > 0
    ensures Agrees(reg, first, i, sameInv, answers) <==> !SomewhereDiffers(reg, first.src[i], first.dst, first.count)
  {
    var s, dst := first.src[i], first.dst;
    if s.Empty() {
      IdleVisits(reg, first, i, 0, false, sameInv, answers);
      IdleVisits(reg, Visits(reg, first, i, 0, |dst|, false, false, sameInv, answers), i, 0, true, sameInv, answers);
      assert first.src[i := s] == first.src;
    } else if !PartOfOversized(reg, first, i) {
      SafeAgrees(reg, first, i, sameInv, answers);
    } else {
      var k := FirstRoom(reg, dst, 0, s);
      if k == |dst| {
        NoTopUp(reg, first, i, sameInv, answers);
      } else if !PutBackOverflows(reg, s, Some(dst[k]), first.count) {
        TopUpAgrees(reg, first, i, k, sameInv, answers);
      } else if MoreToCome(reg, dst, k, s) {
        OverflowDiffers(reg, first, i, k, sameInv, answers);
      } else {
        OverflowAlike(reg, first, i, k, sameInv, answers);
      }
    }
  }
}
