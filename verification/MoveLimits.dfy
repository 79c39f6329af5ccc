/**
 One move between two slots, as its result: how many items go over under the answers of the
 callbacks, when two stacks are exchanged, and that nothing else changes.
 */
module MoveLimits {
  import opened Common
  import opened Items
  import opened Stacks
  import opened Inventory
  import opened MoveRules

  function Smaller(a: int, b: int): int {
    if a < b then a else b
  }

  /** `s` with another number of items. */
  function Sized(s: ItemStack, n: U16): ItemStack {
    if n == 0 then EMPTY_STACK else s.(count := n)
  }

  /**
   The number left in the source when `n` items were taken and `accepted` of them went over:
   the others come back, but never beyond the limit of the item.
   */
  function LeftOf(reg: Registry, s: ItemStack, n: U16, accepted: U16): U16
    requires accepted <= n <= s.count
  {
    var limit := reg.Get(s.name).stackMax;
    if n == s.count || s.count - accepted <= limit then s.count - accepted
    else if s.count - n > limit then s.count - n
    else limit
  }

  /** The two slots have become `s` and `d`, and no other slot has changed. */
  ghost predicate SlotsBecome(src: seq<ItemStack>, i: nat, dst: seq<ItemStack>, j: nat, same: bool, l: ListPair,
                              s: ItemStack, d: ItemStack)
    requires i < |src| && j < |dst| && (same ==> dst == src)
  {
    && l.dst == (if same then src[i := s] else dst)[j := d]
    && l.src == if same then l.dst else src[i := s]
  }

  /** The stack may go over and the one found there may come back, each as a whole. */
  predicate ExchangeAllowed(s: ItemStack, d: ItemStack, sameInv: bool, a: Answers) {
    if sameInv then a.take >= s.count && a.swapTake >= d.count
    else a.take >= s.count && a.put >= s.count && a.swapPut >= d.count && a.swapTake >= d.count
  }

  /**
   If the slot accepts any of the portion asked for, as much of it goes over as the source
   and, between inventories, the destination allow and as there is room for.  If it accepts
   none, the stacks change places if that is allowed; otherwise nothing happens.
   */
  ghost predicate MovedAsAllowed(reg: Registry, src: seq<ItemStack>, i: nat, dst: seq<ItemStack>, j: nat, same: bool,
                                 sameInv: bool, count: U16, a: Answers, l: ListPair)
    requires i < |src| && j < |dst| && (same ==> dst == src) && NonNegative(a)
  {
    var s, d := src[i], dst[j];
    var asked: U16 := if 0 < count < s.count then count else s.count;
    if Accepted(reg, d, s.(count := asked)) > 0 then
      var n := Smaller(asked, if sameInv then a.take else Smaller(a.take, a.put));
      var accepted := Accepted(reg, d, s.(count := n));
      SlotsBecome(src, i, dst, j, same, l, Sized(s, LeftOf(reg, s, n, accepted)),
                  Sized(if d.Empty() then s else d, d.count + accepted))
    else if ExchangeAllowed(s, d, sameInv, a) && !s.Empty() then
      var n := if sameInv then Smaller(s.count, a.swapTake) else s.count;
      SlotsBecome(src, i, dst, j, same, l, d, Sized(s, LeftOf(reg, s, n, 0)))
    else l == ListPair(src, dst)
  }

  // ----- The decision -----

  /** What is decided when some of the portion fits, and when none does. */
  lemma DecidedWithRoom(reg: Registry, s: ItemStack, d: ItemStack, count: U16, sameInv: bool, a: Answers)
    requires NonNegative(a) && Accepted(reg, d, Asked(s, count)) > 0
    ensures var v := Judge(reg, s, d, count, false, sameInv, a);
            var n := Smaller(Asked(s, count).count, if sameInv then a.take else Smaller(a.take, a.put));
            v.Proceed? && v.count == n && !v.allowSwap && !WantsSwap(reg, s, d, count, false)
  {
    FitPredictsAdd(reg, d, Asked(s, count));
    AddAccepts(reg, d, Asked(s, count));
  }

  lemma DecidedWithoutRoom(reg: Registry, s: ItemStack, d: ItemStack, count: U16, sameInv: bool, a: Answers)
    requires NonNegative(a) && Accepted(reg, d, Asked(s, count)) == 0 && !s.Empty()
    ensures var v := Judge(reg, s, d, count, false, sameInv, a);
            && WantsSwap(reg, s, d, count, false) && v.Proceed?
            && v.allowSwap == ExchangeAllowed(s, d, sameInv, a)
            && v.count == if !v.allowSwap then 0 else if sameInv then Smaller(s.count, a.swapTake) else s.count
  {
    FitPredictsAdd(reg, d, Asked(s, count));
    AddAccepts(reg, d, Asked(s, count));
  }

  // ----- The effect -----

  lemma PartLeaves(reg: Registry, s: ItemStack, d: ItemStack, count: U16, n: U16)
    requires WellFormed(s) && WellFormed(d) && Accepted(reg, d, Asked(s, count)) > 0
    requires 0 < n <= Asked(s, count).count
    ensures var acc, m := Accepted(reg, d, s.(count := n)), MoveSlots(reg, s, Some(d), n, false);
            && m.src == Sized(s, LeftOf(reg, s, n, acc))
            && m.dst == Some(Sized(if d.Empty() then s else d, d.count + acc))
  {
  }

  lemma GivenBackIs(reg: Registry, s: ItemStack, n: U16)
    requires WellFormed(s) && 0 < n <= s.count
    ensures GivenBack(reg, s, n) == Sized(s, LeftOf(reg, s, n, 0))
  {
  }

  function Lists(e: Effect): ListPair {
    ListPair(e.src, e.dst)
  }

  lemma NothingBecomes(src: seq<ItemStack>, i: nat, dst: seq<ItemStack>, j: nat, same: bool)
    requires i < |src| && j < |dst| && (same ==> dst == src)
    ensures SlotsBecome(src, i, dst, j, same, ListPair(src, dst), src[i], dst[j])
  {
    assert src[i := src[i]] == src && dst[j := dst[j]] == dst;
  }

  lemma PartBecomes(reg: Registry, src: seq<ItemStack>, i: nat, dst: seq<ItemStack>, j: nat, same: bool, count: U16,
                    n: U16)
    requires AllWellFormed(src) && AllWellFormed(dst) && (same ==> dst == src) && Attempted(src, i, dst, j, same)
    requires Accepted(reg, dst[j], Asked(src[i], count)) > 0 && n <= Asked(src[i], count).count
    ensures var s, d, l := src[i], dst[j],
                           if n == 0 then ListPair(src, dst)
                           else var r := MoveInLists(reg, src, i, dst, j, n, false, same); ListPair(r.src, r.dst);
            var accepted := Accepted(reg, d, s.(count := n));
            SlotsBecome(src, i, dst, j, same, l, Sized(s, LeftOf(reg, s, n, accepted)),
                        Sized(if d.Empty() then s else d, d.count + accepted))
  {
    if n == 0 {
      NothingBecomes(src, i, dst, j, same);
    } else {
      PartLeaves(reg, src[i], dst[j], count, n);
      MoveAsSlots(reg, src, i, dst, j, same, n, false);
    }
  }

  lemma ApplyWithRoom(reg: Registry, src: seq<ItemStack>, i: nat, dst: seq<ItemStack>, j: nat, same: bool,
                      sameInv: bool, count: U16, moveCount: int, a: Answers)
    requires NonNegative(a) && AllWellFormed(src) && AllWellFormed(dst) && (same ==> dst == src)
    requires Attempted(src, i, dst, j, same) && Accepted(reg, dst[j], Asked(src[i], count)) > 0
    ensures MovedAsAllowed(reg, src, i, dst, j, same, sameInv, count, a,
                           Lists(Apply(reg, src, i, dst, j, same, sameInv, false, count, moveCount, a)))
  {
    DecidedWithRoom(reg, src[i], dst[j], count, sameInv, a);
    LimitedApply(reg, src, i, dst, j, same, sameInv, false, count, moveCount, a);
    PartBecomes(reg, src, i, dst, j, same, count, Judge(reg, src[i], dst[j], count, false, sameInv, a).count);
  }

  lemma ApplyWithoutRoom(reg: Registry, src: seq<ItemStack>, i: nat, dst: seq<ItemStack>, j: nat, same: bool,
                         sameInv: bool, count: U16, moveCount: int, a: Answers)
    requires NonNegative(a) && AllWellFormed(src) && AllWellFormed(dst) && (same ==> dst == src)
    requires Attempted(src, i, dst, j, same) && Accepted(reg, dst[j], Asked(src[i], count)) == 0 && !src[i].Empty()
    ensures MovedAsAllowed(reg, src, i, dst, j, same, sameInv, count, a,
                           Lists(Apply(reg, src, i, dst, j, same, sameInv, false, count, moveCount, a)))
  {
    var n := Judge(reg, src[i], dst[j], count, false, sameInv, a).count;
    DecidedWithoutRoom(reg, src[i], dst[j], count, sameInv, a);
    LimitedApply(reg, src, i, dst, j, same, sameInv, false, count, moveCount, a);
    if n > 0 {
      SwapExchanges(reg, src[i], dst[j], count, n);
      GivenBackIs(reg, src[i], n);
      MoveAsSlots(reg, src, i, dst, j, same, n, true);
    }
  }

  /**
   The outcome of every move between two slots that is not part of move-somewhere, within a
   list or between two, as long as no answer is "unlimited".
   */
  lemma ApplyMovesAsAllowed(reg: Registry, src: seq<ItemStack>, i: int, dst: seq<ItemStack>, j: int, same: bool,
                            sameInv: bool, count: U16, moveCount: int, a: Answers)
    requires NonNegative(a) && AllWellFormed(src) && AllWellFormed(dst) && (same ==> dst == src)
    ensures var l := Lists(Apply(reg, src, i, dst, j, same, sameInv, false, count, moveCount, a));
            if 0 <= i < |src| && 0 <= j < |dst| && !(same && i == j) then
              MovedAsAllowed(reg, src, i, dst, j, same, sameInv, count, a, l)
            else l == ListPair(src, dst)
  {
    if Attempted(src, i, dst, j, same) {
      if Accepted(reg, dst[j], Asked(src[i], count)) > 0 {
        ApplyWithRoom(reg, src, i, dst, j, same, sameInv, count, moveCount, a);
      } else if !src[i].Empty() {
        ApplyWithoutRoom(reg, src, i, dst, j, same, sameInv, count, moveCount, a);
      }
    }
  }

  // ----- "Unlimited" answers -----

  /** An answer of -1 limits a count no more than the largest number does. */
  function Reading(answer: int): int {
    if answer == -1 then 0xFFFF else answer
  }

  function Readings(a: Answers): Answers {
    Answers(Reading(a.put), Reading(a.take), Reading(a.swapPut), Reading(a.swapTake))
  }

  /** Who has the last word on the destination: its own callback, or the only one there is. */
  function Last(sameInv: bool, room: bool, a: Answers): int {
    if !sameInv then a.put else if room then a.take else a.swapTake
  }

  /** "Unlimited" does not change how many items are to move, nor whether stacks are exchanged. */
  lemma SameDecision(reg: Registry, s: ItemStack, d: ItemStack, count: U16, sameInv: bool, a: Answers)
    requires AtLeastMinusOne(a) && !s.Empty()
    ensures var v, w := Judge(reg, s, d, count, false, sameInv, a),
                        Judge(reg, s, d, count, false, sameInv, Readings(a));
            var room := Accepted(reg, d, Asked(s, count)) > 0;
            && v.Proceed? && w.Proceed? && v.count == w.count && v.allowSwap == w.allowSwap
            && (room ==> !v.allowSwap) && WantsSwap(reg, s, d, count, false) == !room
            && (room || v.allowSwap ==> v.take == a.take && v.put == Last(sameInv, room, a))
            && (!room && !v.allowSwap ==> v.count == 0)
  {
    FitPredictsAdd(reg, d, Asked(s, count));
    AddAccepts(reg, d, Asked(s, count));
  }

  /** The lists if 65535 had been answered wherever "unlimited" was. */
  function IfLimited(reg: Registry, src: seq<ItemStack>, i: nat, dst: seq<ItemStack>, j: nat, same: bool,
                     sameInv: bool, count: U16, a: Answers): (l: ListPair)
    requires AtLeastMinusOne(a) && (same ==> dst == src)
    ensures |l.src| == |src| && |l.dst| == |dst|
  {
    Lists(Apply(reg, src, i, dst, j, same, sameInv, false, count, 0, Readings(a)))
  }

  /** A stack that has been exchanged with an endless one goes to the first empty slot. */
  function Aside(dst: seq<ItemStack>, s: ItemStack, d: ItemStack, displaced: bool): (r: seq<ItemStack>)
    ensures |r| == |dst|
  {
    if displaced && s.name != d.name then PutAside(dst, 0, d) else dst
  }

  lemma EndlessSourceGives(reg: Registry, src: seq<ItemStack>, i: nat, dst: seq<ItemStack>, j: nat, same: bool,
                           sameInv: bool, count: U16, moveCount: int, a: Answers)
    requires AtLeastMinusOne(a) && AllWellFormed(src) && AllWellFormed(dst) && (same ==> dst == src)
    requires Attempted(src, i, dst, j, same) && Accepted(reg, dst[j], Asked(src[i], count)) > 0
    requires a.take == -1 && !sameInv && a.put != -1
    ensures var l := Lists(Apply(reg, src, i, dst, j, same, sameInv, false, count, moveCount, a));
            SlotsBecome(src, i, dst, j, same, l, src[i],
                        IfLimited(reg, src, i, dst, j, same, sameInv, count, a).dst[j])
  {
    var s, d := src[i], dst[j];
    SameDecision(reg, s, d, count, sameInv, a);
    LimitedApply(reg, src, i, dst, j, same, sameInv, false, count, 0, Readings(a));
    var n := Judge(reg, s, d, count, false, sameInv, a).count;
    NothingBecomes(src, i, dst, j, same);
    if n > 0 {
      EndlessSource(reg, src, i, dst, j, same, sameInv, false, count, moveCount, a);
      MoveAsSlots(reg, src, i, dst, j, same, n, false);
      MovedSomethingOrSame(reg, s, d, count, n, false);
      assert src[i := s] == src;
    }
  }

  lemma EndlessDestinationTakes(reg: Registry, src: seq<ItemStack>, i: nat, dst: seq<ItemStack>, j: nat, same: bool,
                                sameInv: bool, count: U16, moveCount: int, a: Answers)
    requires AtLeastMinusOne(a) && AllWellFormed(src) && AllWellFormed(dst) && (same ==> dst == src)
    requires Attempted(src, i, dst, j, same) && Accepted(reg, dst[j], Asked(src[i], count)) > 0
    requires if sameInv then a.take == -1 else a.put == -1
    ensures var l := Lists(Apply(reg, src, i, dst, j, same, sameInv, false, count, moveCount, a));
            var n := Smaller(Asked(src[i], count).count, Reading(a.take));
            SlotsBecome(src, i, dst, j, same, l, Sized(src[i], src[i].count - n), dst[j])
  {
    var s, d := src[i], dst[j];
    SameDecision(reg, s, d, count, sameInv, a);
    DecidedWithRoom(reg, s, d, count, sameInv, Readings(a));
    NothingBecomes(src, i, dst, j, same);
    var v := Judge(reg, s, d, count, false, sameInv, a);
    if v.count > 0 {
      EndlessDestination(reg, src, i, dst, j, same, sameInv, false, count, moveCount, a);
      if same {
        assert src[i := Take(s, v.count).rest][j := d] == src[i := Take(s, v.count).rest];
      }
    }
  }

  /**
   An endless source keeps its stack while the destination gets what it would get otherwise.
   An endless destination keeps its stack while the source loses all that was to be moved,
   whether there is room for it or not.
   */
  lemma EndlessEnds(reg: Registry, src: seq<ItemStack>, i: nat, dst: seq<ItemStack>, j: nat, same: bool,
                    sameInv: bool, count: U16, moveCount: int, a: Answers)
    requires AtLeastMinusOne(a) && AllWellFormed(src) && AllWellFormed(dst) && (same ==> dst == src)
    requires Attempted(src, i, dst, j, same) && Accepted(reg, dst[j], Asked(src[i], count)) > 0
    ensures var l := Lists(Apply(reg, src, i, dst, j, same, sameInv, false, count, moveCount, a));
            var limited := IfLimited(reg, src, i, dst, j, same, sameInv, count, a);
            var put := if sameInv then a.take else a.put;
            var n := Smaller(Asked(src[i], count).count, Reading(a.take));
            && (a.take != -1 && put != -1 ==> l == limited)
            && (a.take == -1 && put != -1 ==> SlotsBecome(src, i, dst, j, same, l, src[i], limited.dst[j]))
            && (put == -1 ==> SlotsBecome(src, i, dst, j, same, l, Sized(src[i], src[i].count - n), dst[j]))
  {
    var put := if sameInv then a.take else a.put;
    if put == -1 {
      EndlessDestinationTakes(reg, src, i, dst, j, same, sameInv, count, moveCount, a);
    } else if a.take == -1 {
      EndlessSourceGives(reg, src, i, dst, j, same, sameInv, count, moveCount, a);
    } else {
      SameDecision(reg, src[i], dst[j], count, sameInv, a);
      LimitedApply(reg, src, i, dst, j, same, sameInv, false, count, 0, Readings(a));
    }
  }

  /**
   Exchanging stacks with an endless source: it keeps its stack, and the stack it was
   exchanged for goes to the first empty slot.  With an endless destination: that keeps its
   stack, and the source is emptied.
   */
  lemma EndlessExchange(reg: Registry, src: seq<ItemStack>, i: nat, dst: seq<ItemStack>, j: nat, same: bool,
                        sameInv: bool, count: U16, moveCount: int, a: Answers)
    requires AtLeastMinusOne(a) && AllWellFormed(src) && AllWellFormed(dst) && (same ==> dst == src)
    requires Attempted(src, i, dst, j, same) && !src[i].Empty() && Accepted(reg, dst[j], Asked(src[i], count)) == 0
    ensures var l := Lists(Apply(reg, src, i, dst, j, same, sameInv, false, count, moveCount, a));
            var limited := IfLimited(reg, src, i, dst, j, same, sameInv, count, a);
            var put, aside := if sameInv then a.swapTake else a.put, Aside(dst, src[i], dst[j], a.take == -1);
            if !ExchangeAllowed(src[i], dst[j], sameInv, Readings(a)) then l == ListPair(src, dst)
            else if put == -1 then
              l.src == (if same then aside else src)[i := EMPTY_STACK] && l.dst == if same then l.src else aside
            else if a.take == -1 then
              l.dst == Aside(dst[j := limited.dst[j]], src[i], dst[j], true) && l.src == if same then l.dst else src
            else l == limited
  {
    var s, d := src[i], dst[j];
    SameDecision(reg, s, d, count, sameInv, a);
    DecidedWithoutRoom(reg, s, d, count, sameInv, Readings(a));
    LimitedApply(reg, src, i, dst, j, same, sameInv, false, count, 0, Readings(a));
    var v := Judge(reg, s, d, count, false, sameInv, a);
    if v.count > 0 {
      if v.put == -1 {
        EndlessDestination(reg, src, i, dst, j, same, sameInv, false, count, moveCount, a);
      } else if v.take == -1 {
        EndlessSource(reg, src, i, dst, j, same, sameInv, false, count, moveCount, a);
        SwapExchanges(reg, s, d, count, v.count);
        MoveAsSlots(reg, src, i, dst, j, same, v.count, true);
      }
    }
  }
}
