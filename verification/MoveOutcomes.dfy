/**
 What becomes of the items in move-somewhere, in one list or between two: when the assertion
 in the loop fails, how many items are left behind and how many are lost; with inputs.
 */
module MoveOutcomes {
  import opened Common
  import opened Items
  import opened Stacks
  import opened Inventory
  import opened MoveRules
  import opened MoveSomewhere
  import opened MoveWalk

  // ----- What becomes of the items, and when the assertion fails -----

  /** The assertion fails exactly if some offer is an overrun. */
  lemma EverywhereAbortsIff(reg: Registry, first: Run, i: int, size: int, same: bool, sameInv: bool, answers: Oracle)
    requires AllLimited(answers) && Going(first, i, same) && size <= |first.dst|
    ensures Everywhere(reg, first, i, size, same, sameInv, answers).aborted
            <==> Overruns(reg, AllOffers(first.dst, size, OwnOf(i, same)), HandOf(first, i), sameInv, answers)
  {
    EverywhereIsWalk(reg, first, i, size, same, sameInv, answers);
  }

  /** Every item asked for has left the source, is still wanted, or has been left behind. */
  lemma EverywhereLeavesBehind(reg: Registry, first: Run, i: int, size: int, same: bool, sameInv: bool, answers: Oracle)
    requires AllLimited(answers) && Going(first, i, same) && size <= |first.dst|
    ensures var r := Everywhere(reg, first, i, size, same, sameInv, answers);
            var offers, h := AllOffers(first.dst, size, OwnOf(i, same)), HandOf(first, i);
            && |r.src| == |first.src|
            && first.src[i].count - r.src[i].count - Losses(Lost, reg, offers, h, sameInv, answers) + r.count
               == first.count - Losses(LeftBehind, reg, offers, h, sameInv, answers)
  {
    EverywhereIsWalk(reg, first, i, size, same, sameInv, answers);
  }

  /** Items like the one moved are lost in exactly that number, and nothing else changes in total. */
  lemma EverywhereKeepsTotalsIff(reg: Registry, first: Run, i: int, size: int, same: bool, sameInv: bool,
                                 answers: Oracle)
    requires AllLimited(answers) && Going(first, i, same) && size <= |first.dst|
    ensures var r := Everywhere(reg, first, i, size, same, sameInv, answers);
            var lost := Losses(Lost, reg, AllOffers(first.dst, size, OwnOf(i, same)), HandOf(first, i), sameInv,
                               answers);
            && (forall key :: Both(first.src, first.dst, same, key) ==
                  Both(r.src, r.dst, same, key) + if key == KeyOf(first.src[i]) then lost else 0)
            && (SameTotals(first.src, r.src, same, first.dst, r.dst) <==> lost == 0)
  {
    EverywhereIsWalk(reg, first, i, size, same, sameInv, answers);
    var r := Everywhere(reg, first, i, size, same, sameInv, answers);
    var key := KeyOf(first.src[i]);
    assert Both(first.src, first.dst, same, key) == Both(r.src, r.dst, same, key) <==>
           Losses(Lost, reg, AllOffers(first.dst, size, OwnOf(i, same)), HandOf(first, i), sameInv, answers) == 0;
  }

  /** No pass makes items. */
  lemma PassNeverGains(reg: Registry, st: Run, i: int, j: nat, size: int, empty: bool, same: bool, sameInv: bool,
                       answers: Oracle)
    requires AllLimited(answers) && Going(st, i, same) && size <= |st.dst|
    ensures var r := Visits(reg, st, i, j, size, empty, same, sameInv, answers);
            && NoGain(st.src, r.src, same, st.dst, r.dst) && (!r.aborted ==> Going(r, i, same))
  {
    PassWalks(reg, st, i, j, size, empty, same, sameInv, answers, KeyOf(st.src[i]));
  }

  // ----- When items are left behind -----

  /** At a slot with room for some of the stack, a callback allows nothing at all. */
  ghost predicate Refused(reg: Registry, st: Run, i: int, j: int, same: bool, sameInv: bool, answers: Oracle)
    requires 0 <= i < |st.src| && 0 <= j < |st.dst|
  {
    var a := answers(st.visits);
    && !(same && i == j)
    && RestCount(reg, st.src[i], st.dst[j], st.count) < Asked(st.src[i], st.count).count
    && (a.take == 0 || (!sameInv && a.put == 0))
  }

  /**
   A visit gives up items it was asked to move exactly when it is refused, or when nothing is
   tried and the last number is counted again.
   */
  lemma VisitGivesUpIff(reg: Registry, st: Run, i: int, j: int, same: bool, sameInv: bool, answers: Oracle)
    requires AllLimited(answers) && Going(st, i, same) && 0 <= j < |st.dst| && st.count > 0
             && WithinLimit(reg, st.src[i])
    ensures var r := Visit(reg, st, i, j, same, sameInv, answers);
            && |r.src| == |st.src|
            && (!r.aborted ==>
                  (st.src[i].count - r.src[i].count + r.count < st.count
                   <==> Refused(reg, st, i, j, same, sameInv, answers)
                        || ((st.src[i].Empty() || (same && i == j)) && st.moveCount > 0)))
  {
    VisitWalks(reg, st, i, j, same, sameInv, answers, KeyOf(st.src[i]));
    FitPredictsAdd(reg, st.dst[j], Asked(st.src[i], st.count));
    AddAccepts(reg, st.dst[j], Asked(st.src[i], st.count));
  }

  /** A refusal ends the whole loop: the slots after it, in either pass, are offered nothing. */
  lemma RefusalEndsLoop(reg: Registry, st: Run, i: int, j: nat, size: int, empty: bool, same: bool, sameInv: bool,
                        answers: Oracle)
    requires AllLimited(answers) && Going(st, i, same) && j < size <= |st.dst|
    requires st.count > 0 && st.dst[j].Empty() == empty && Refused(reg, st, i, j, same, sameInv, answers)
    ensures var r := Visits(reg, st, i, j, size, empty, same, sameInv, answers);
            && r == st.(count := 0, moveCount := 0, visits := st.visits + 1)
            && Visits(reg, r, i, 0, size, true, same, sameInv, answers) == r
  {
    FitPredictsAdd(reg, st.dst[j], Asked(st.src[i], st.count));
    AddAccepts(reg, st.dst[j], Asked(st.src[i], st.count));
    TriedVisit(reg, st, i, j, same, sameInv, answers);
  }

  /** This offer is refused, or tries nothing and counts the last number again. */
  predicate Leaves(reg: Registry, o: Offer, h: Hand, sameInv: bool, a: Answers)
    requires NonNegative(a) && h.count > 0
  {
    (Idle(o, h) && 0 < h.m <= h.count) || (Takes(reg, o, h) && Allowed(h, sameInv, a) == 0)
  }

  /** The walk comes to offer `k`, and leaves items behind there. */
  ghost predicate LeavesAt(reg: Registry, offers: seq<Offer>, h: Hand, k: int, sameInv: bool, answers: Oracle)
    requires AllLimited(answers)
  {
    && 0 <= k < |offers| && !Overruns(reg, offers[..k], h, sameInv, answers)
    && var mid := After(reg, offers[..k], h, sameInv, answers);
       mid.count > 0 && Leaves(reg, offers[k], mid, sameInv, answers(mid.visits))
  }

  lemma LeavesLater(reg: Registry, offers: seq<Offer>, h: Hand, k: int, sameInv: bool, answers: Oracle)
    requires AllLimited(answers) && offers != [] && h.count > 0 && !Overrun(offers[0], h) && k >= 0
    ensures LeavesAt(reg, offers, h, k + 1, sameInv, answers)
            <==> LeavesAt(reg, offers[1..], Next(reg, offers[0], h, sameInv, answers(h.visits)), k, sameInv, answers)
  {
    if k + 1 < |offers| {
      assert offers[..k + 1][1..] == offers[1..][..k];
    }
  }

  lemma {:induction false} SomeLeavesIff(reg: Registry, offers: seq<Offer>, h: Hand, sameInv: bool, answers: Oracle)
    requires AllLimited(answers)
    ensures Losses(LeftBehind, reg, offers, h, sameInv, answers) > 0
            <==> exists k :: LeavesAt(reg, offers, h, k, sameInv, answers)
  {
    if offers != [] && h.count > 0 && !Overrun(offers[0], h) {
      var rest, next := offers[1..], Next(reg, offers[0], h, sameInv, answers(h.visits));
      SomeLeavesIff(reg, rest, next, sameInv, answers);
      assert offers[..0] == [];
      assert LeavesAt(reg, offers, h, 0, sameInv, answers) <==> Leaves(reg, offers[0], h, sameInv, answers(h.visits));
      if k :| LeavesAt(reg, offers, h, k, sameInv, answers) {
        if k > 0 {
          LeavesLater(reg, offers, h, k - 1, sameInv, answers);
        }
      }
      if k :| LeavesAt(reg, rest, next, k, sameInv, answers) {
        LeavesLater(reg, offers, h, k, sameInv, answers);
      }
    } else {
      NothingLeft(reg, offers, h, sameInv, answers);
    }
  }

  /** Where the walk has come to its end, no offer is reached. */
  lemma NothingLeft(reg: Registry, offers: seq<Offer>, h: Hand, sameInv: bool, answers: Oracle)
    requires AllLimited(answers) && (offers == [] || h.count == 0 || Overrun(offers[0], h))
    ensures forall k :: !LeavesAt(reg, offers, h, k, sameInv, answers)
  {
    forall k | 0 <= k < |offers| ensures !LeavesAt(reg, offers, h, k, sameInv, answers) {
      if k > 0 {
        assert offers[..k][0] == offers[0];
      }
    }
  }

  /**
   A stack within its limit: fewer items have left the source or are still wanted than were
   asked for exactly if one of the offers is refused or counts the last number again.
   */
  lemma EverywhereGivesUpIff(reg: Registry, first: Run, i: int, size: int, same: bool, sameInv: bool, answers: Oracle)
    requires AllLimited(answers) && Going(first, i, same) && size <= |first.dst| && WithinLimit(reg, first.src[i])
    ensures var r := Everywhere(reg, first, i, size, same, sameInv, answers);
            var offers, h := AllOffers(first.dst, size, OwnOf(i, same)), HandOf(first, i);
            && |r.src| == |first.src|
            && (first.src[i].count - r.src[i].count + r.count < first.count
                <==> exists k :: LeavesAt(reg, offers, h, k, sameInv, answers))
  {
    var offers, h := AllOffers(first.dst, size, OwnOf(i, same)), HandOf(first, i);
    EverywhereLeavesBehind(reg, first, i, size, same, sameInv, answers);
    OffersAreProper(first.dst, 0, size, false, OwnOf(i, same));
    OffersAreProper(first.dst, 0, size, true, OwnOf(i, same));
    WithinLimitLosesNothing(reg, offers, h, sameInv, answers);
    SomeLeavesIff(reg, offers, h, sameInv, answers);
  }

  // A registry without entries, a stack of three stones, and two empty slots.
  const BARE: Registry := Registry(map[], map[], ItemDef(map[], 99, false))
  const STONES: ItemStack := ItemStack("stone", 3, 0, map[])

  function Asking(count: U16): Run {
    Run([STONES], [EMPTY_STACK, EMPTY_STACK], count, 0, 0, 0, false)
  }

  /** Refused at the first slot, three stones stay where they are although the second has room. */
  lemma RefusalSkipsRoom(answers: Oracle)
    requires Answering(answers) && answers(0).take == 0 && forall v: nat :: v > 0 ==> Permissive(answers(v))
    ensures Everywhere(BARE, Asking(3), 0, 2, false, false, answers) == Asking(3).(count := 0, visits := 1)
    ensures AddTo(BARE, EMPTY_STACK, STONES).leftover.Empty()
  {
    var first := Asking(3);
    assert Visits(BARE, first, 0, 2, 2, false, false, false, answers) == first;
    assert Visits(BARE, first, 0, 1, 2, false, false, false, answers) == first;
    assert Visits(BARE, first, 0, 0, 2, false, false, false, answers) == first;
    assert Visit(BARE, first, 0, 0, false, false, answers) == first.(count := 0, visits := 1);
  }

  // ----- Hands that lose nothing -----

  lemma NextCount(reg: Registry, o: Offer, h: Hand, sameInv: bool, a: Answers)
    requires NonNegative(a) && h.count > 0 && WellFormed(h.s) && (o.Slot? ==> WellFormed(o.stack)) && Takes(reg, o, h)
    ensures var next, n := Next(reg, o, h, sameInv, a), Allowed(h, sameInv, a);
            && WellFormed(next.s) && OfKind(next.s, KeyOf(h.s))
            && (n == 0 ==> next.s == h.s && next.count == 0)
            && (n > 0 ==>
                  && 0 < next.m <= n && next.m == Accepted(reg, o.stack, h.s.(count := n))
                  && next.count == h.count - next.m
                  && next.s.count == h.s.count - next.m - LostAt(reg, h.s, o.stack, n))
  {
    var n := Allowed(h, sameInv, a);
    if n > 0 {
      PartMove(reg, h.s, o.stack, h.count, n);
      SlotsLose(reg, h.s, o.stack, n, KeyOf(h.s));
    }
  }

  ghost predicate ProperOffers(offers: seq<Offer>, h: Hand) {
    WellFormed(h.s) && forall k :: 0 <= k < |offers| && offers[k].Slot? ==> WellFormed(offers[k].stack)
  }

  /** A stack within its limit. */
  predicate WithinLimit(reg: Registry, s: ItemStack) {
    s.count <= reg.Get(s.name).stackMax
  }

  lemma {:induction false} WithinLimitLosesNothing(reg: Registry, offers: seq<Offer>, h: Hand, sameInv: bool,
                                                   answers: Oracle)
    requires AllLimited(answers) && ProperOffers(offers, h) && WithinLimit(reg, h.s)
    ensures Losses(Lost, reg, offers, h, sameInv, answers) == 0
  {
    if offers != [] && h.count > 0 && !Overrun(offers[0], h) {
      var a := answers(h.visits);
      if Takes(reg, offers[0], h) {
        NextCount(reg, offers[0], h, sameInv, a);
      }
      WithinLimitLosesNothing(reg, offers[1..], Next(reg, offers[0], h, sameInv, a), sameInv, answers);
    }
  }

  /**
   Asked for no more than there is, within the limit, and not coming past its own slot: no
   overrun; and with everything permitted nothing is left behind.
   */
  lemma {:induction false} SafeWalk(reg: Registry, offers: seq<Offer>, h: Hand, sameInv: bool, answers: Oracle)
    requires AllLimited(answers) && ProperOffers(offers, h) && WithinLimit(reg, h.s) && h.count <= h.s.count
    requires forall k :: 0 <= k < |offers| ==> offers[k] != Own(false)
    ensures !Overruns(reg, offers, h, sameInv, answers)
    ensures AllPermitted(answers) ==> Losses(LeftBehind, reg, offers, h, sameInv, answers) == 0
  {
    if offers != [] && h.count > 0 {
      var a := answers(h.visits);
      if Takes(reg, offers[0], h) {
        NextCount(reg, offers[0], h, sameInv, a);
      }
      SafeWalk(reg, offers[1..], Next(reg, offers[0], h, sameInv, a), sameInv, answers);
    }
  }

  lemma {:induction false} OffersAreProper(items: seq<ItemStack>, j: nat, size: int, empty: bool, own: Option<int>)
    requires size <= |items| && AllWellFormed(items)
    ensures forall k :: 0 <= k < |Offers(items, j, size, empty, own)| ==>
              match Offers(items, j, size, empty, own)[k]
              case Slot(stack) => WellFormed(stack) && stack.Empty() == empty
              case Own(e) => e == empty && own.Some? && j <= own.value < size
    decreases size - j
  {
    if j < size {
      OffersAreProper(items, j + 1, size, empty, own);
    }
  }

  // ----- Asking for more than there is -----

  /**
   Over `k` further slots an empty source repeats its last count `m` while `e` items are left
   to move: the last repetition is too large unless `m` divides `e`, or the slots run out.
   */
  predicate Overshoots(e: nat, m: nat, k: nat) {
    m > 0 && e % m != 0 && k > e / m
  }

  lemma OvershootsNext(e: nat, m: nat, k: nat)
    requires e > 0 && k > 0
    ensures Overshoots(e, m, k) <==> m > e || (m > 0 && Overshoots(e - m, m, k - 1))
  {
    if m > e {
      QuotientIs(e, 0, m);
    } else if m > 0 {
      QuotientIs(e, (e - m) / m + 1, m);
    }
  }

  lemma QuotientIs(e: nat, q: nat, m: nat)
    requires m > 0 && q * m <= e < q * m + m
    ensures e / m == q && e % m == e - q * m
  {
    assert e == (e / m) * m + e % m;
    Times(e / m, q, m);
    Times(q, e / m, m);
  }

  lemma {:induction false} Times(a: nat, b: nat, m: nat)
    ensures a < b ==> a * m + m <= b * m
  {
    if a + 1 < b {
      Times(a, b - 1, m);
      assert b * m == (b - 1) * m + m;
    }
  }

  /**
   The stack is offered to the slots in turn, `m` being the last count and `e` the number
   asked for beyond the stack: the slot that takes the last of it decides what is repeated.
   */
  predicate Repeats(reg: Registry, offers: seq<Offer>, item: ItemStack, m: nat, e: nat) {
    if item.Empty() then Overshoots(e, m, |offers|)
    else if offers == [] || offers[0].Own? then false
    else
      var slot := offers[0].stack;
      Repeats(reg, offers[1..], AddTo(reg, slot, item).leftover, Accepted(reg, slot, item), e)
  }

  lemma {:induction false} EmptyHandRepeats(reg: Registry, offers: seq<Offer>, h: Hand, sameInv: bool, answers: Oracle)
    requires AllLimited(answers) && h.s.Empty() && forall k :: 0 <= k < |offers| ==> offers[k].Slot?
    ensures Overruns(reg, offers, h, sameInv, answers) <==> Overshoots(h.count, h.m, |offers|)
  {
    if h.count == 0 {
      if h.m > 0 {
        QuotientIs(0, 0, h.m);
      }
    } else if offers != [] {
      OvershootsNext(h.count, h.m, |offers|);
      if h.m <= h.count {
        EmptyHandRepeats(reg, offers[1..], Next(reg, offers[0], h, sameInv, answers(h.visits)), sameInv, answers);
      }
    }
  }

  /** The whole stack is offered, and what the slot leaves of it is the stack from then on. */
  lemma WholeStackNext(reg: Registry, o: Offer, h: Hand, sameInv: bool, a: Answers)
    requires Permissive(a) && WellFormed(h.s) && !h.s.Empty() && h.count >= h.s.count && o.Slot? && WellFormed(o.stack)
    ensures var next, acc := Next(reg, o, h, sameInv, a), Accepted(reg, o.stack, h.s);
            && acc <= h.s.count && WellFormed(next.s) && next.s == AddTo(reg, o.stack, h.s).leftover
            && next.count == h.count - acc && next.m == acc && next.s.count == h.s.count - acc
            && LossAt(Lost, reg, o, h, sameInv, a) == 0
  {
    AddAccepts(reg, o.stack, h.s);
    LeftoverIsSameItem(reg, o.stack, h.s);
    assert h.s.(count := h.s.count) == h.s && TakeUpTo(h.s, h.s.count).rest == EMPTY_STACK;
  }

  lemma {:induction false} OveraskedRepeats(reg: Registry, offers: seq<Offer>, h: Hand, sameInv: bool, answers: Oracle)
    requires AllPermitted(answers) && AllLimited(answers) && ProperOffers(offers, h) && h.count >= h.s.count
    requires forall k :: 0 <= k < |offers| ==> offers[k].Slot?
    ensures Overruns(reg, offers, h, sameInv, answers) <==> Repeats(reg, offers, h.s, h.m, h.count - h.s.count)
  {
    if h.s.Empty() {
      EmptyHandRepeats(reg, offers, h, sameInv, answers);
    } else if offers != [] {
      WholeStackNext(reg, offers[0], h, sameInv, answers(h.visits));
      OveraskedRepeats(reg, offers[1..], Next(reg, offers[0], h, sameInv, answers(h.visits)), sameInv, answers);
    }
  }

  lemma PermittedIsLimited(answers: Oracle)
    requires AllPermitted(answers)
    ensures AllLimited(answers)
  {
    forall v: nat ensures NonNegative(answers(v)) {
      assert Permissive(answers(v));
    }
  }

  /**
   Between two lists and with everything permitted, a stack within its limit fails the
   assertion exactly when more is asked for than it holds, and the count that is repeated
   does not come out even before the slots run out.
   */
  lemma AskingForMoreAbortsIff(reg: Registry, first: Run, i: int, size: int, sameInv: bool, answers: Oracle)
    requires AllPermitted(answers) && Going(first, i, false) && size <= |first.dst| && WithinLimit(reg, first.src[i])
    ensures Everywhere(reg, first, i, size, false, sameInv, answers).aborted
            <==> first.count > first.src[i].count
                 && Repeats(reg, AllOffers(first.dst, size, None), first.src[i], first.moveCount,
                            first.count - first.src[i].count)
  {
    PermittedIsLimited(answers);
    EverywhereAbortsIff(reg, first, i, size, false, sameInv, answers);
    OffersAreProper(first.dst, 0, size, false, None);
    OffersAreProper(first.dst, 0, size, true, None);
    if first.count <= first.src[i].count {
      SafeWalk(reg, AllOffers(first.dst, size, None), HandOf(first, i), sameInv, answers);
    } else {
      OveraskedRepeats(reg, AllOffers(first.dst, size, None), HandOf(first, i), sameInv, answers);
    }
  }

  /** Asked for five of three stones with two slots free, the loop fails the assertion; for six it does not. */
  lemma AskingForMoreAborts(answers: Oracle)
    requires AllPermitted(answers)
    ensures Everywhere(BARE, Asking(5), 0, 2, false, false, answers).aborted
    ensures !Everywhere(BARE, Asking(6), 0, 2, false, false, answers).aborted
  {
    AskingForMoreAbortsIff(BARE, Asking(5), 0, 2, false, answers);
    AskingForMoreAbortsIff(BARE, Asking(6), 0, 2, false, answers);
    var slots := [EMPTY_STACK, EMPTY_STACK];
    var offers := [Slot(EMPTY_STACK), Slot(EMPTY_STACK)];
    assert Offers(slots, 2, 2, false, None) == Offers(slots, 2, 2, true, None) == [];
    assert Offers(slots, 1, 2, false, None) == Offers(slots, 0, 2, false, None) == [];
    assert Offers(slots, 1, 2, true, None) == [Slot(EMPTY_STACK)] && Offers(slots, 0, 2, true, None) == offers;
    assert AllOffers(slots, 2, None) == offers && offers[1..] == [Slot(EMPTY_STACK)];
    assert AddTo(BARE, EMPTY_STACK, STONES).leftover == EMPTY_STACK;
  }

  /** Between two lists nothing is left behind of a stack within its limit, if all is permitted. */
  lemma NothingLeftBehind(reg: Registry, first: Run, i: int, size: int, sameInv: bool, answers: Oracle)
    requires AllPermitted(answers) && Going(first, i, false) && size <= |first.dst|
    requires WithinLimit(reg, first.src[i]) && first.count <= first.src[i].count
    ensures var r := Everywhere(reg, first, i, size, false, sameInv, answers);
            !r.aborted && |r.src| == |first.src| && first.src[i].count - r.src[i].count + r.count == first.count
  {
    var offers := AllOffers(first.dst, size, None);
    PermittedIsLimited(answers);
    OffersAreProper(first.dst, 0, size, false, None);
    OffersAreProper(first.dst, 0, size, true, None);
    EverywhereAbortsIff(reg, first, i, size, false, sameInv, answers);
    EverywhereLeavesBehind(reg, first, i, size, false, sameInv, answers);
    SafeWalk(reg, offers, HandOf(first, i), sameInv, answers);
    WithinLimitLosesNothing(reg, offers, HandOf(first, i), sameInv, answers);
  }

  // ----- Coming past the own slot -----

  /** The free space of the last occupied slot before `i`, 0 for another kind; `m` if there is none. */
  function LastFree(reg: Registry, items: seq<ItemStack>, j: nat, i: nat, s: ItemStack, m: nat): nat
    requires i <= |items|
    decreases i - j
  {
    if j >= i then m
    else
      var here := if items[j].Empty() then m else if SameKind(items[j], s) then FreeSpace(reg, items[j]) else 0;
      LastFree(reg, items, j + 1, i, s, here)
  }

  lemma FillsUpNext(reg: Registry, slot: ItemStack, h: Hand, sameInv: bool, a: Answers)
    requires Permissive(a) && WellFormed(h.s) && WithinLimit(reg, h.s) && 0 < h.count <= h.s.count
    requires WellFormed(slot) && !slot.Empty()
    ensures var free := if SameKind(slot, h.s) then FreeSpace(reg, slot) else 0;
            var o, next := Slot(slot), Next(reg, Slot(slot), h, sameInv, a);
            && !Overrun(o, h) && LossAt(LeftBehind, reg, o, h, sameInv, a) == 0
            && WellFormed(next.s) && WithinLimit(reg, next.s)
            && (free >= h.count ==> next.count == 0)
            && (free < h.count ==>
                  && next.count == h.count - free && next.s.count == h.s.count - free && next.m == free
                  && SameKind(next.s, h.s) && next.s.name == h.s.name)
  {
    if Takes(reg, Slot(slot), h) {
      NextCount(reg, Slot(slot), h, sameInv, a);
    }
  }

  lemma {:induction false} LastFreeKind(reg: Registry, items: seq<ItemStack>, j: nat, i: nat, a: ItemStack,
                                        b: ItemStack,
                                        m: nat)
    requires i <= |items| && SameKind(a, b)
    ensures LastFree(reg, items, j, i, a, m) == LastFree(reg, items, j, i, b, m)
    decreases i - j
  {
    if j < i {
      var here := if items[j].Empty() then m else if SameKind(items[j], a) then FreeSpace(reg, items[j]) else 0;
      LastFreeKind(reg, items, j + 1, i, a, b, here);
    }
  }

  /** The occupied slots from `j` to before `i` are filled up, or take all. */
  ghost predicate FilledUp(reg: Registry, items: seq<ItemStack>, j: nat, i: nat, h: Hand, sameInv: bool,
                           answers: Oracle)
    requires AllLimited(answers) && j <= i <= |items|
  {
    var offers, free := Offers(items, j, i, false, None), MatchingFree(reg, items[..i], j, h.s);
    var end := After(reg, offers, h, sameInv, answers);
    && !Overruns(reg, offers, h, sameInv, answers) && Losses(LeftBehind, reg, offers, h, sameInv, answers) == 0
    && WellFormed(end.s) && WithinLimit(reg, end.s)
    && (free >= h.count ==> end.count == 0)
    && (free < h.count ==>
          && end.count == h.count - free && end.s.count == h.s.count - free
          && end.m == LastFree(reg, items, j, i, h.s, h.m))
  }

  lemma FilledUpBeyondEmpty(reg: Registry, items: seq<ItemStack>, j: nat, i: nat, h: Hand, sameInv: bool,
                            answers: Oracle)
    requires AllLimited(answers) && j < i <= |items| && items[j].Empty()
    requires FilledUp(reg, items, j + 1, i, h, sameInv, answers)
    ensures FilledUp(reg, items, j, i, h, sameInv, answers)
  {
    assert Offers(items, j, i, false, None) == Offers(items, j + 1, i, false, None);
    assert |items[..i]| == i && items[..i][j] == items[j];
  }

  lemma FilledUpBeyond(reg: Registry, items: seq<ItemStack>, j: nat, i: nat, h: Hand, sameInv: bool, answers: Oracle)
    requires AllPermitted(answers) && AllLimited(answers) && j < i <= |items| && !items[j].Empty()
             && WellFormed(items[j])
    requires WellFormed(h.s) && WithinLimit(reg, h.s) && 0 < h.count <= h.s.count
    requires var next := Next(reg, Slot(items[j]), h, sameInv, answers(h.visits));
             next.count > 0 ==> FilledUp(reg, items, j + 1, i, next, sameInv, answers)
    ensures FilledUp(reg, items, j, i, h, sameInv, answers)
  {
    FillsUpNext(reg, items[j], h, sameInv, answers(h.visits));
    var o, rest := Slot(items[j]), Offers(items, j + 1, i, false, None);
    var next := Next(reg, o, h, sameInv, answers(h.visits));
    assert Offers(items, j, i, false, None) == [o] + rest && ([o] + rest)[1..] == rest;
    assert |items[..i]| == i && items[..i][j] == items[j];
    if next.count > 0 {
      MatchingFreeKind(reg, items[..i], j + 1, next.s, h.s);
      LastFreeKind(reg, items, j + 1, i, next.s, h.s, next.m);
    }
  }

  lemma {:induction false} FillsUp(reg: Registry, items: seq<ItemStack>, j: nat, i: nat, h: Hand, sameInv: bool,
                                   answers: Oracle)
    requires AllPermitted(answers) && AllLimited(answers) && AllWellFormed(items) && j <= i <= |items|
    requires WellFormed(h.s) && WithinLimit(reg, h.s) && 0 < h.count <= h.s.count
    ensures FilledUp(reg, items, j, i, h, sameInv, answers)
    decreases i - j
  {
    if j < i {
      if items[j].Empty() {
        FillsUp(reg, items, j + 1, i, h, sameInv, answers);
        FilledUpBeyondEmpty(reg, items, j, i, h, sameInv, answers);
      } else {
        FillsUpNext(reg, items[j], h, sameInv, answers(h.visits));
        var next := Next(reg, Slot(items[j]), h, sameInv, answers(h.visits));
        if next.count > 0 {
          FillsUp(reg, items, j + 1, i, next, sameInv, answers);
        }
        FilledUpBeyond(reg, items, j, i, h, sameInv, answers);
      }
    }
  }

  lemma {:induction false} OffersSplit(items: seq<ItemStack>, j: nat, i: nat, size: int)
    requires j <= i < size <= |items|
    ensures Offers(items, j, size, false, Some(i)) ==
            Offers(items, j, i, false, None) + ([Own(false)] + Offers(items, i + 1, size, false, Some(i)))
    decreases i - j
  {
    if j < i {
      OffersSplit(items, j + 1, i, size);
    }
  }

  /** At the own slot the last number is repeated: too large, or left behind. */
  lemma OwnSlot(reg: Registry, rest: seq<Offer>, h: Hand, sameInv: bool, answers: Oracle)
    requires AllPermitted(answers) && AllLimited(answers) && ProperOffers(rest, h) && WithinLimit(reg, h.s)
    requires 0 < h.count <= h.s.count && forall k :: 0 <= k < |rest| ==> rest[k] != Own(false)
    ensures var offers := [Own(false)] + rest;
            && (Overruns(reg, offers, h, sameInv, answers) <==> h.m > h.count)
            && Losses(LeftBehind, reg, offers, h, sameInv, answers) == if h.m <= h.count then h.m else 0
  {
    assert ([Own(false)] + rest)[1..] == rest;
    if h.m <= h.count {
      SafeWalk(reg, rest, h.(count := h.count - h.m, visits := h.visits + 1), sameInv, answers);
    }
  }

  /**
   Within one list the loop comes to the source slot itself, after the occupied slots before
   it.  If `free`, the room in these, is less than what is asked for, `last`, the room in the
   last of them, is counted once more: the assertion fails if that is more than is still
   wanted, and otherwise as many items are left behind.
   */
  ghost predicate OwnSlotRepeats(r: Run, first: Run, i: int, free: nat, last: nat)
    requires 0 <= i < |first.src| && 0 <= i < |r.src|
  {
    && (r.aborted <==> free < first.count && last > first.count - free)
    && first.src[i].count - r.src[i].count + r.count ==
       first.count - if free < first.count && last <= first.count - free then last else 0
  }

  lemma OwnSlotIff(reg: Registry, first: Run, i: int, size: int, sameInv: bool, answers: Oracle)
    requires AllPermitted(answers) && Going(first, i, true) && i < size <= |first.dst|
    requires WithinLimit(reg, first.src[i]) && first.count <= first.src[i].count
    ensures var r := Everywhere(reg, first, i, size, true, sameInv, answers);
            && |r.src| == |first.src|
            && OwnSlotRepeats(r, first, i, MatchingFree(reg, first.src[..i], 0, first.src[i]),
                              LastFree(reg, first.src, 0, i, first.src[i], first.moveCount))
  {
    PermittedIsLimited(answers);
    EverywhereAbortsIff(reg, first, i, size, true, sameInv, answers);
    EverywhereLeavesBehind(reg, first, i, size, true, sameInv, answers);
    if first.count > 0 {
      OwnSlotWalk(reg, first, i, size, sameInv, answers);
    }
  }

  lemma OwnSlotWalk(reg: Registry, first: Run, i: int, size: int, sameInv: bool, answers: Oracle)
    requires AllPermitted(answers) && AllLimited(answers) && Going(first, i, true) && i < size <= |first.dst|
    requires WithinLimit(reg, first.src[i]) && 0 < first.count <= first.src[i].count
    ensures var free, last := MatchingFree(reg, first.src[..i], 0, first.src[i]),
                              LastFree(reg, first.src, 0, i, first.src[i], first.moveCount);
            var offers, h := AllOffers(first.dst, size, Some(i)), HandOf(first, i);
            && Losses(Lost, reg, offers, h, sameInv, answers) == 0
            && (Overruns(reg, offers, h, sameInv, answers) <==> free < first.count && last > first.count - free)
            && Losses(LeftBehind, reg, offers, h, sameInv, answers) ==
               if free < first.count && last <= first.count - free then last else 0
  {
    var h, items := HandOf(first, i), first.src;
    var before, after := Offers(items, 0, i, false, None), Offers(items, i + 1, size, false, Some(i));
    var empties := Offers(items, 0, size, true, Some(i));
    var rest := after + empties;
    var mid := After(reg, before, h, sameInv, answers);
    OffersAreProper(items, 0, i, false, None);
    OffersAreProper(items, i + 1, size, false, Some(i));
    OffersAreProper(items, 0, size, true, Some(i));
    OffersSplit(items, 0, i, size);
    assert AllOffers(items, size, Some(i)) == before + ([Own(false)] + rest);
    FillsUp(reg, items, 0, i, h, sameInv, answers);
    WalkOn(reg, before, [Own(false)] + rest, h, sameInv, answers);
    if mid.count > 0 {
      OwnSlot(reg, rest, mid, sameInv, answers);
    }
    WithinLimitLosesNothing(reg, before + ([Own(false)] + rest), h, sameInv, answers);
  }

  // A list of stones that are to be put together somewhere in it.
  function Stones(n: U16): ItemStack {
    ItemStack("stone", n, 0, map[])
  }

  function InOneList(items: seq<ItemStack>, count: U16): Run {
    Run(items, items, count, 0, 0, 0, false)
  }

  /** Asked for all 3 stones of slot 1, of which slot 0 takes 2: counted twice, they exceed what is wanted. */
  lemma OwnSlotAborts(answers: Oracle)
    requires AllPermitted(answers)
    ensures Everywhere(BARE, InOneList([Stones(97), Stones(3)], 3), 1, 2, true, true, answers).aborted
  {
    var items := [Stones(97), Stones(3)];
    OwnSlotIff(BARE, InOneList(items, 3), 1, 2, true, answers);
    assert items[..1] == [Stones(97)];
    assert MatchingFree(BARE, [Stones(97)], 1, Stones(3)) == 0 && LastFree(BARE, items, 1, 1, Stones(3), 2) == 2;
  }

  /**
   Of 3 stones slot 0 takes one; counted twice, one of the other two stays behind, for which
   slot 2 has room.
   */
  lemma OwnSlotLeavesBehind(answers: Oracle)
    requires AllPermitted(answers)
    ensures var r := Everywhere(BARE, InOneList([Stones(98), Stones(3), EMPTY_STACK], 3), 1, 3, true, true, answers);
            !r.aborted && r.count == 0 && |r.src| == 3 && r.src[1] == Stones(1)
  {
    var items := [Stones(98), Stones(3), EMPTY_STACK];
    PermittedIsLimited(answers);
    OwnSlotIff(BARE, InOneList(items, 3), 1, 3, true, answers);
    assert items[..1] == [Stones(98)];
    assert MatchingFree(BARE, [Stones(98)], 1, Stones(3)) == 0 && LastFree(BARE, items, 1, 1, Stones(3), 1) == 1;
    EverywhereIsWalk(BARE, InOneList(items, 3), 1, 3, true, true, answers);
    ThreeSlots(items);
    ThreeSteps(answers);
  }

  lemma ThreeSlots(items: seq<ItemStack>)
    requires |items| == 3 && !items[0].Empty() && !items[1].Empty() && items[2].Empty()
    ensures AllOffers(items, 3, Some(1)) == [Slot(items[0]), Own(false), Own(true), Slot(items[2])]
  {
    assert Offers(items, 3, 3, false, Some(1)) == Offers(items, 3, 3, true, Some(1)) == [];
    assert Offers(items, 2, 3, false, Some(1)) == [] && Offers(items, 2, 3, true, Some(1)) == [Slot(items[2])];
    assert Offers(items, 1, 3, false, Some(1)) == [Own(false)];
    assert Offers(items, 1, 3, true, Some(1)) == [Own(true), Slot(items[2])];
  }

  lemma ThreeSteps(answers: Oracle)
    requires AllPermitted(answers) && AllLimited(answers)
    ensures var end := After(BARE, [Slot(Stones(98)), Own(false), Own(true), Slot(EMPTY_STACK)],
                             Hand(Stones(3), 3, 0, 0), true, answers);
            end.s == Stones(1) && end.count == 0
  {
    var h, h1, h2 := Hand(Stones(3), 3, 0, 0), Hand(Stones(2), 2, 1, 1), Hand(Stones(2), 1, 1, 2);
    var o1, o2, o3, o4 := Slot(Stones(98)), Own(false), Own(true), Slot(EMPTY_STACK);
    assert Next(BARE, o1, h, true, answers(0)) == h1 && Next(BARE, o2, h1, true, answers(1)) == h2;
    assert Next(BARE, o4, h2, true, answers(2)) == Hand(Stones(1), 0, 1, 3);
    OneStep(BARE, o1, [o2, o3, o4], h, true, answers);
    OneStep(BARE, o2, [o3, o4], h1, true, answers);
    OneStep(BARE, o3, [o4], h2, true, answers);
    OneStep(BARE, o4, [], h2, true, answers);
    assert [o1] + [o2, o3, o4] == [o1, o2, o3, o4] && [o2] + [o3, o4] == [o2, o3, o4] && [o3] + [o4] == [o3, o4];
    assert [o4] + [] == [o4];
  }

  lemma OneStep(reg: Registry, o: Offer, rest: seq<Offer>, h: Hand, sameInv: bool, answers: Oracle)
    requires AllLimited(answers) && h.count > 0 && !Overrun(o, h)
    ensures After(reg, [o] + rest, h, sameInv, answers) ==
            After(reg, rest, Next(reg, o, h, sameInv, answers(h.visits)), sameInv, answers)
  {
    assert ([o] + rest)[1..] == rest;
  }

  // ----- When items are lost -----

  /** An occupied slot that can be topped up with items like `s`. */
  predicate HasRoom(reg: Registry, slot: ItemStack, s: ItemStack) {
    !slot.Empty() && SameKind(slot, s) && FreeSpace(reg, slot) > 0
  }

  /** The first slot from `j` on that can be topped up. */
  function FirstRoom(reg: Registry, items: seq<ItemStack>, j: nat, s: ItemStack): (k: nat)
    requires j <= |items|
    ensures j <= k <= |items| && (k < |items| ==> HasRoom(reg, items[k], s))
    ensures forall q :: j <= q < k ==> !HasRoom(reg, items[q], s)
    ensures k < |items| <==> MatchingFree(reg, items, j, s) > 0
    decreases |items| - j
  {
    if j == |items| || HasRoom(reg, items[j], s) then j else FirstRoom(reg, items, j + 1, s)
  }

  /** An empty slot takes all it is offered. */
  lemma {:induction false} EmptySlotsLoseNothing(reg: Registry, offers: seq<Offer>, h: Hand, sameInv: bool,
                                                 answers: Oracle)
    requires AllLimited(answers) && forall k :: 0 <= k < |offers| && offers[k].Slot? ==> offers[k].stack.Empty()
    ensures Losses(Lost, reg, offers, h, sameInv, answers) == 0
  {
    if offers != [] && h.count > 0 && !Overrun(offers[0], h) {
      EmptySlotsLoseNothing(reg, offers[1..], Next(reg, offers[0], h, sameInv, answers(h.visits)), sameInv, answers);
    }
  }

  lemma {:induction false} OveraskedLosesNothing(reg: Registry, offers: seq<Offer>, h: Hand, sameInv: bool,
                                                 answers: Oracle)
    requires AllPermitted(answers) && AllLimited(answers) && ProperOffers(offers, h) && h.count >= h.s.count
    requires forall k :: 0 <= k < |offers| ==> offers[k].Slot?
    ensures Losses(Lost, reg, offers, h, sameInv, answers) == 0
  {
    if offers != [] && h.count > 0 && !Overrun(offers[0], h) {
      if !h.s.Empty() {
        WholeStackNext(reg, offers[0], h, sameInv, answers(h.visits));
      }
      OveraskedLosesNothing(reg, offers[1..], Next(reg, offers[0], h, sameInv, answers(h.visits)), sameInv, answers);
    }
  }

  /** The first slot with room decides. */
  lemma RoomDecides(reg: Registry, o: Offer, rest: seq<Offer>, h: Hand, sameInv: bool, answers: Oracle)
    requires AllPermitted(answers) && AllLimited(answers) && ProperOffers(rest, h) && o.Slot? && WellFormed(o.stack)
    requires 0 < h.count && !h.s.Empty() && HasRoom(reg, o.stack, h.s)
    requires h.count >= h.s.count ==> forall k :: 0 <= k < |rest| ==> rest[k].Slot?
    ensures Losses(Lost, reg, [o] + rest, h, sameInv, answers) > 0
            <==> PutBackOverflows(reg, h.s, Some(o.stack), h.count)
  {
    var next := Next(reg, o, h, sameInv, answers(h.visits));
    assert ([o] + rest)[1..] == rest;
    NextCount(reg, o, h, sameInv, answers(h.visits));
    if h.count >= h.s.count {
      WholeStackNext(reg, o, h, sameInv, answers(h.visits));
      OveraskedLosesNothing(reg, rest, next, sameInv, answers);
    } else if !PutBackOverflows(reg, h.s, Some(o.stack), h.count) && next.count > 0 {
      WithinLimitLosesNothing(reg, rest, next, sameInv, answers);
    }
  }

  /** No other does: not one without room, nor the own one when nothing has been moved yet. */
  lemma NoRoomDecidesNothing(reg: Registry, o: Offer, rest: seq<Offer>, h: Hand, sameInv: bool, answers: Oracle)
    requires AllPermitted(answers) && AllLimited(answers) && 0 < h.count && !h.s.Empty()
    requires if o.Own? then !o.empty && h.m == 0 else !o.stack.Empty() && !HasRoom(reg, o.stack, h.s)
    ensures Losses(Lost, reg, [o] + rest, h, sameInv, answers) ==
            Losses(Lost, reg, rest, h.(m := 0, visits := h.visits + 1), sameInv, answers)
  {
    assert ([o] + rest)[1..] == rest;
  }

  ghost predicate EmptyOffers(offers: seq<Offer>) {
    forall k :: 0 <= k < |offers| && offers[k].Slot? ==> offers[k].stack == EMPTY_STACK
  }

  /** Part of an oversized stack, or, between two lists, all of it. */
  ghost predicate Oversized(reg: Registry, items: seq<ItemStack>, own: Option<int>, h: Hand, empties: seq<Offer>) {
    && AllWellFormed(items) && WellFormed(h.s) && 0 < h.count && !WithinLimit(reg, h.s) && EmptyOffers(empties)
    && (own.Some? ==> h.m == 0 && 0 <= own.value < |items| && items[own.value] == h.s)
    && (h.count >= h.s.count ==> own.None? && forall k :: 0 <= k < |empties| ==> empties[k].Slot?)
  }

  /** From slot `j` on the first slot with room decides. */
  ghost predicate Decided(reg: Registry, items: seq<ItemStack>, j: nat, size: int, own: Option<int>, h: Hand,
                          empties: seq<Offer>, sameInv: bool, answers: Oracle)
    requires AllLimited(answers) && size <= |items| && j <= |items|
  {
    var k := FirstRoom(reg, items, j, h.s);
    Losses(Lost, reg, Offers(items, j, size, false, own) + empties, h, sameInv, answers) > 0
    <==> k < size && PutBackOverflows(reg, h.s, Some(items[k]), h.count)
  }

  lemma DecidedHere(reg: Registry, items: seq<ItemStack>, j: nat, size: int, own: Option<int>, h: Hand,
                    empties: seq<Offer>, sameInv: bool, answers: Oracle)
    requires AllPermitted(answers) && AllLimited(answers) && size <= |items| && j < size
    requires Oversized(reg, items, own, h, empties) && own != Some(j) && HasRoom(reg, items[j], h.s)
    ensures Decided(reg, items, j, size, own, h, empties, sameInv, answers)
  {
    var rest := Offers(items, j + 1, size, false, own) + empties;
    HeadOffer(items, j, size, own);
    assert [Slot(items[j])] + Offers(items, j + 1, size, false, own) + empties == [Slot(items[j])] + rest;
    OffersAreProper(items, j + 1, size, false, own);
    RoomDecides(reg, Slot(items[j]), rest, h, sameInv, answers);
  }

  lemma DecidedLater(reg: Registry, items: seq<ItemStack>, j: nat, size: int, own: Option<int>, h: Hand,
                     empties: seq<Offer>, sameInv: bool, answers: Oracle)
    requires AllPermitted(answers) && AllLimited(answers) && size <= |items| && j < size
    requires Oversized(reg, items, own, h, empties) && !items[j].Empty()
             && (own == Some(j) || !HasRoom(reg, items[j], h.s))
    requires Decided(reg, items, j + 1, size, own, h.(m := 0, visits := h.visits + 1), empties, sameInv, answers)
    ensures Decided(reg, items, j, size, own, h, empties, sameInv, answers)
  {
    var o, rest := OfferOf(items, j, own), Offers(items, j + 1, size, false, own) + empties;
    HeadOffer(items, j, size, own);
    assert [o] + Offers(items, j + 1, size, false, own) + empties == [o] + rest;
    NoRoomDecidesNothing(reg, o, rest, h, sameInv, answers);
  }

  lemma {:induction false} FirstRoomDecides(reg: Registry, items: seq<ItemStack>, j: nat, size: int, own: Option<int>,
                                            h: Hand, empties: seq<Offer>, sameInv: bool, answers: Oracle)
    requires AllPermitted(answers) && AllLimited(answers) && size <= |items| && j <= |items|
    requires Oversized(reg, items, own, h, empties)
    ensures Decided(reg, items, j, size, own, h, empties, sameInv, answers)
    decreases size - j
  {
    if j >= size {
      assert [] + empties == empties;
      EmptySlotsLoseNothing(reg, empties, h, sameInv, answers);
    } else if items[j].Empty() {
      FirstRoomDecides(reg, items, j + 1, size, own, h, empties, sameInv, answers);
      assert Offers(items, j, size, false, own) == Offers(items, j + 1, size, false, own);
    } else if own != Some(j) && HasRoom(reg, items[j], h.s) {
      DecidedHere(reg, items, j, size, own, h, empties, sameInv, answers);
    } else {
      FirstRoomDecides(reg, items, j + 1, size, own, h.(m := 0, visits := h.visits + 1), empties, sameInv, answers);
      DecidedLater(reg, items, j, size, own, h, empties, sameInv, answers);
    }
  }

  /**
   With everything permitted, in one list or between two: items are lost exactly when part of
   an oversized stack is asked for and the first slot that can be topped up takes too little
   of it for the rest to go back.
   */
  lemma PermittedKeepsTotalsIff(reg: Registry, first: Run, i: int, size: int, same: bool, sameInv: bool,
                                answers: Oracle)
    requires AllPermitted(answers) && Going(first, i, same) && size <= |first.dst| && first.count > 0
    requires same ==> first.moveCount == 0 && first.count < first.src[i].count
    ensures var r := Everywhere(reg, first, i, size, same, sameInv, answers);
            var k := FirstRoom(reg, first.dst, 0, first.src[i]);
            SameTotals(first.src, r.src, same, first.dst, r.dst)
            <==> !(k < size && PutBackOverflows(reg, first.src[i], Some(first.dst[k]), first.count))
  {
    var own, h := OwnOf(i, same), HandOf(first, i);
    PermittedIsLimited(answers);
    EverywhereKeepsTotalsIff(reg, first, i, size, same, sameInv, answers);
    OffersAreProper(first.dst, 0, size, false, own);
    OffersAreProper(first.dst, 0, size, true, own);
    if WithinLimit(reg, h.s) {
      WithinLimitLosesNothing(reg, AllOffers(first.dst, size, own), h, sameInv, answers);
    } else {
      FirstRoomDecides(reg, first.dst, 0, size, own, h, Offers(first.dst, 0, size, true, own), sameInv, answers);
    }
  }

  /** Of 100 out of 200 stones a slot with 50 takes 49, and the other 51 have no room on the way back. */
  lemma OversizedIsDropped(answers: Oracle)
    requires AllPermitted(answers)
    ensures var first := Run([Stones(200)], [Stones(50)], 100, 0, 0, 0, false);
            var r := Everywhere(BARE, first, 0, 1, false, false, answers);
            !SameTotals(first.src, r.src, false, first.dst, r.dst)
  {
    var first := Run([Stones(200)], [Stones(50)], 100, 0, 0, 0, false);
    PermittedKeepsTotalsIff(BARE, first, 0, 1, false, false, answers);
    assert FirstRoom(BARE, first.dst, 0, Stones(200)) == 0;
  }
}
