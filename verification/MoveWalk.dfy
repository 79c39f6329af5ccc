/**
 The move-somewhere loop seen from the source slot: one stack offered to slot after slot.
 What becomes of it, in one list or between two, for any stack, any number asked for and
 any limits the callbacks set: when the assertion fails, and how many items are left behind
 or lost.
 */
module MoveWalk {
  import opened Common
  import opened Items
  import opened Stacks
  import opened Inventory
  import opened MoveRules
  import opened MoveSomewhere

  /**
   What a pass comes to: a slot, or the source slot itself, in the pass over the occupied or
   over the empty ones.
   */
  datatype Offer = Slot(stack: ItemStack) | Own(empty: bool)

  /** The source stack, the number still wanted, the last one reported, and the visits so far. */
  datatype Hand = Hand(s: ItemStack, count: U16, m: nat, visits: nat)

  // ----- One offer -----

  /** The source slot is left out of the pass over the other kind of slots. */
  predicate Skipped(o: Offer, h: Hand) {
    o.Own? && o.empty != h.s.Empty()
  }

  /** A visit that tries nothing: the slot is the source itself, or the source is used up. */
  predicate Idle(o: Offer, h: Hand) {
    !Skipped(o, h) && (o.Own? || h.s.Empty())
  }

  /** A slot that takes some of what is asked for. */
  predicate Takes(reg: Registry, o: Offer, h: Hand) {
    o.Slot? && !h.s.Empty() && Accepted(reg, o.stack, Asked(h.s, h.count)) > 0
  }

  function Allowed(h: Hand, sameInv: bool, a: Answers): (n: U16)
    requires NonNegative(a)
    ensures n <= h.s.count
  {
    Limit(Asked(h.s, h.count).count, sameInv, a)
  }

  function TakenOff(reg: Registry, o: Offer, h: Hand, n: U16): nat
    requires o.Slot?
  {
    Accepted(reg, o.stack, h.s.(count := n))
  }

  /** The last number reported is repeated although it is too large. */
  predicate Overrun(o: Offer, h: Hand) {
    Idle(o, h) && h.m > h.count
  }

  /** The hand after an offer that is no overrun. */
  function Next(reg: Registry, o: Offer, h: Hand, sameInv: bool, a: Answers): Hand
    requires NonNegative(a) && h.count > 0
  {
    if Skipped(o, h) || Overrun(o, h) then h
    else if Idle(o, h) then h.(count := h.count - h.m, visits := h.visits + 1)
    else if !Takes(reg, o, h) then h.(m := 0, visits := h.visits + 1)
    else
      var n := Allowed(h, sameInv, a);
      if n == 0 then h.(count := 0, m := 0, visits := h.visits + 1)
      else
        AddAccepts(reg, o.stack, h.s.(count := n));
        var t := TakenOff(reg, o, h, n);
        Hand(PutBack(reg, h.s, o.stack, h.s.(count := n)), h.count - t, t, h.visits + 1)
  }

  /** Ways in which items asked for do not arrive: left in the source slot, or lost. */
  datatype Loss = LeftBehind | Lost

  /** Part of an oversized stack has been taken, and what comes back has no room. */
  function LostAt(reg: Registry, s: ItemStack, d: ItemStack, n: U16): nat {
    if PutBackOverflows(reg, s, Some(d), n) then
      s.count - Acceptable(reg, s, Some(d), n) - Larger(reg.Get(s.name).stackMax, s.count - n)
    else 0
  }

  /**
   All that is wanted is left behind where a slot would take some but a callback allows none;
   as many as were last reported, where nothing is tried.
   */
  function LossAt(what: Loss, reg: Registry, o: Offer, h: Hand, sameInv: bool, a: Answers): nat
    requires NonNegative(a) && h.count > 0
  {
    match what
    case LeftBehind =>
      if Idle(o, h) then (if h.m <= h.count then h.m else 0)
      else if Takes(reg, o, h) && Allowed(h, sameInv, a) == 0 then h.count
      else 0
    case Lost =>
      if Takes(reg, o, h) && Allowed(h, sameInv, a) > 0 then LostAt(reg, h.s, o.stack, Allowed(h, sameInv, a)) else 0
  }

  // ----- All offers in turn -----

  ghost function After(reg: Registry, offers: seq<Offer>, h: Hand, sameInv: bool, answers: Oracle): Hand
    requires AllLimited(answers)
  {
    if offers == [] || h.count == 0 || Overrun(offers[0], h) then h
    else After(reg, offers[1..], Next(reg, offers[0], h, sameInv, answers(h.visits)), sameInv, answers)
  }

  /** Some offer is an overrun. */
  ghost predicate Overruns(reg: Registry, offers: seq<Offer>, h: Hand, sameInv: bool, answers: Oracle)
    requires AllLimited(answers)
  {
    if offers == [] || h.count == 0 then false
    else
      Overrun(offers[0], h)
      || Overruns(reg, offers[1..], Next(reg, offers[0], h, sameInv, answers(h.visits)), sameInv, answers)
  }

  /** How many items are left behind, or lost, over all offers. */
  ghost function Losses(what: Loss, reg: Registry, offers: seq<Offer>, h: Hand, sameInv: bool, answers: Oracle): nat
    requires AllLimited(answers)
  {
    if offers == [] || h.count == 0 || Overrun(offers[0], h) then 0
    else
      var a := answers(h.visits);
      LossAt(what, reg, offers[0], h, sameInv, a)
      + Losses(what, reg, offers[1..], Next(reg, offers[0], h, sameInv, a), sameInv, answers)
  }

  /** What is offered in one pass, from slot `j` on; `own` is the source slot, if it is in the list. */
  function Offers(items: seq<ItemStack>, j: nat, size: int, empty: bool, own: Option<int>): seq<Offer>
    requires size <= |items|
    decreases size - j
  {
    if j >= size then []
    else
      (if own == Some(j) then [Own(empty)] else if items[j].Empty() == empty then [Slot(items[j])] else [])
      + Offers(items, j + 1, size, empty, own)
  }

  /** What is offered in both passes. */
  function AllOffers(items: seq<ItemStack>, size: int, own: Option<int>): seq<Offer>
    requires size <= |items|
  {
    Offers(items, 0, size, false, own) + Offers(items, 0, size, true, own)
  }

  // ----- The loop is such a walk -----

  ghost predicate Going(st: Run, i: int, same: bool) {
    InForm(st, i) && !st.aborted && st.moveCount >= 0 && (same ==> st.src == st.dst)
  }

  function HandOf(st: Run, i: int): Hand
    requires 0 <= i < |st.src| && st.moveCount >= 0
  {
    Hand(st.src[i], st.count, st.moveCount, st.visits)
  }

  /**
   From `st` to `r`, `left` of the items asked for are neither moved nor still wanted, and
   `lost` items like the one moved are gone, nothing else.
   */
  ghost predicate Accounts(st: Run, r: Run, i: int, same: bool, key: Key, left: nat, lost: nat)
    requires 0 <= i < |st.src| && 0 <= i < |r.src|
  {
    && r.src[i].count - r.count == st.src[i].count - st.count + left - lost
    && (forall k :: Both(st.src, st.dst, same, k) == Both(r.src, r.dst, same, k) + if k == key then lost else 0)
  }

  /** What slot `j` is offered as. */
  function OfferOf(items: seq<ItemStack>, j: int, own: Option<int>): Offer
    requires 0 <= j < |items|
  {
    if own == Some(j) then Own(items[j].Empty()) else Slot(items[j])
  }

  function OwnOf(i: int, same: bool): Option<int> {
    if same then Some(i) else None
  }

  /** What a part of a stack, moved to a slot that takes some, leaves in the two slots. */
  lemma SlotsLose(reg: Registry, s: ItemStack, d: ItemStack, n: U16, key: Key)
    requires WellFormed(s) && WellFormed(d) && 0 < n <= s.count && Accepted(reg, d, s.(count := n)) > 0
    ensures var part := s.(count := n); var acc := Accepted(reg, d, part);
            && acc <= n && PutBack(reg, s, d, part).count == s.count - acc - LostAt(reg, s, d, n)
            && (PutBack(reg, s, d, part).Empty() || KeyOf(PutBack(reg, s, d, part)) == KeyOf(s))
            && Amount(s, key) + Amount(d, key) ==
               Amount(PutBack(reg, s, d, part), key) + Amount(AddTo(reg, d, part).slot, key)
               + if key == KeyOf(s) then LostAt(reg, s, d, n) else 0
  {
    var t := TakeUpTo(s, n);
    TakeUpToConserves(s, n, key);
    AddConserves(reg, d, t.item, key);
    AddAccepts(reg, d, t.item);
    AddConserves(reg, t.rest, AddTo(reg, d, t.item).leftover, key);
    AddAccepts(reg, t.rest, AddTo(reg, d, t.item).leftover);
  }

  lemma SlotsLoseTotals(reg: Registry, src: seq<ItemStack>, i: nat, dst: seq<ItemStack>, j: nat, same: bool,
                        s': ItemStack, d': ItemStack, key: Key)
    requires (same ==> dst == src) && Attempted(src, i, dst, j, same)
    ensures var dst' := (if same then src[i := s'] else dst)[j := d'];
            Both(if same then dst' else src[i := s'], dst', same, key) ==
            Both(src, dst, same, key) - Amount(src[i], key) - Amount(dst[j], key) + Amount(s', key) + Amount(d', key)
  {
    TotalUpdate(src, i, s', key);
    TotalUpdate(if same then src[i := s'] else dst, j, d', key);
  }

  /** The loop goes on from `r`, in which only the source slot and slot `j` have changed. */
  ghost predicate GoesOn(st: Run, r: Run, i: int, j: int, same: bool) {
    && Going(r, i, same) && |r.src| == |st.src| && |r.dst| == |st.dst|
    && (forall k :: 0 <= k < |st.dst| && k != j && !(same && k == i) ==> r.dst[k] == st.dst[k])
    && (0 <= j < |st.dst| && !(same && j == i) && !st.dst[j].Empty() ==> !r.dst[j].Empty())
  }

  ghost predicate OfKind(s: ItemStack, key: Key) {
    s.Empty() || KeyOf(s) == key
  }

  /** `r` is `st` after a part of the source stack, of `n` items, has been moved to slot `j`. */
  ghost predicate PartMoved(reg: Registry, st: Run, r: Run, i: int, j: int, same: bool, n: U16)
    requires Attempted(st.src, i, st.dst, j, same) && (same ==> st.src == st.dst)
  {
    var s, d, part := st.src[i], st.dst[j], st.src[i].(count := n);
    && r.dst == (if same then st.src[i := PutBack(reg, s, d, part)] else st.dst)[j := AddTo(reg, d, part).slot]
    && r.src == (if same then r.dst else st.src[i := PutBack(reg, s, d, part)])
    && 0 < n <= s.count && 0 < Accepted(reg, d, part) <= st.count && r.count == st.count - Accepted(reg, d, part)
  }

  lemma PartAccounts(reg: Registry, st: Run, r: Run, i: int, j: int, same: bool, n: U16, key: Key)
    requires InForm(st, i) && (same ==> st.src == st.dst) && Attempted(st.src, i, st.dst, j, same)
    requires PartMoved(reg, st, r, i, j, same, n) && KeyOf(st.src[i]) == key
    ensures |r.src| == |st.src| && Accounts(st, r, i, same, key, 0, LostAt(reg, st.src[i], st.dst[j], n))
    ensures OfKind(r.src[i], key)
  {
    var s, d, part := st.src[i], st.dst[j], st.src[i].(count := n);
    SlotsLose(reg, s, d, n, key);
    forall k ensures Both(st.src, st.dst, same, k) ==
                     Both(r.src, r.dst, same, k) + if k == key then LostAt(reg, s, d, n) else 0 {
      SlotsLose(reg, s, d, n, k);
      SlotsLoseTotals(reg, st.src, i, st.dst, j, same, PutBack(reg, s, d, part), AddTo(reg, d, part).slot, k);
    }
  }

  lemma PartGoesOn(reg: Registry, st: Run, r: Run, i: int, j: int, same: bool, n: U16)
    requires Going(st, i, same) && Attempted(st.src, i, st.dst, j, same) && PartMoved(reg, st, r, i, j, same, n)
    requires AllWellFormed(r.src) && AllWellFormed(r.dst) && !r.aborted && r.moveCount >= 0
    ensures GoesOn(st, r, i, j, same) && r.src[i] == PutBack(reg, st.src[i], st.dst[j], st.src[i].(count := n))
  {
    AddAccepts(reg, st.dst[j], st.src[i].(count := n));
  }

  /** From `st` to `r` the walk has come past offer `o`, which was no overrun. */
  ghost predicate SteppedTo(reg: Registry, st: Run, r: Run, i: int, o: Offer, same: bool, sameInv: bool, a: Answers,
                            key: Key)
    requires NonNegative(a) && Going(st, i, same) && st.count > 0
  {
    var h := HandOf(st, i);
    && Going(r, i, same) && |r.src| == |st.src| && OfKind(r.src[i], key) && HandOf(r, i) == Next(reg, o, h, sameInv, a)
    && Accounts(st, r, i, same, key, LossAt(LeftBehind, reg, o, h, sameInv, a), LossAt(Lost, reg, o, h, sameInv, a))
  }

  lemma PartWalks(reg: Registry, st: Run, r: Run, i: int, j: int, same: bool, sameInv: bool, a: Answers, key: Key)
    requires NonNegative(a) && Going(st, i, same) && Attempted(st.src, i, st.dst, j, same) && st.count > 0
    requires !st.src[i].Empty() && KeyOf(st.src[i]) == key && Accepted(reg, st.dst[j], Asked(st.src[i], st.count)) > 0
    requires var n := Limit(Asked(st.src[i], st.count).count, sameInv, a);
             && PartMoved(reg, st, r, i, j, same, n)
             && r.moveCount == Accepted(reg, st.dst[j], st.src[i].(count := n))
    requires AllWellFormed(r.src) && AllWellFormed(r.dst) && !r.aborted && r.visits == st.visits + 1
    ensures GoesOn(st, r, i, j, same) && SteppedTo(reg, st, r, i, Slot(st.dst[j]), same, sameInv, a, key)
  {
    var n := Limit(Asked(st.src[i], st.count).count, sameInv, a);
    PartAccounts(reg, st, r, i, j, same, n, key);
    PartGoesOn(reg, st, r, i, j, same, n);
  }

  lemma TriedWalks(reg: Registry, st: Run, i: int, j: int, same: bool, sameInv: bool, answers: Oracle, key: Key)
    requires AllLimited(answers) && Going(st, i, same) && 0 <= j < |st.dst| && st.count > 0 && OfKind(st.src[i], key)
    requires !st.src[i].Empty() && !(same && i == j)
    ensures var r := Visit(reg, st, i, j, same, sameInv, answers);
            && !r.aborted && GoesOn(st, r, i, j, same)
            && SteppedTo(reg, st, r, i, Slot(st.dst[j]), same, sameInv, answers(st.visits), key)
  {
    TriedVisit(reg, st, i, j, same, sameInv, answers);
    VisitKeepsForm(reg, st, i, j, same, sameInv, answers);
    if Accepted(reg, st.dst[j], Asked(st.src[i], st.count)) > 0
       && Limit(Asked(st.src[i], st.count).count, sameInv, answers(st.visits)) > 0 {
      PartWalks(reg, st, Visit(reg, st, i, j, same, sameInv, answers), i, j, same, sameInv, answers(st.visits), key);
    }
  }

  lemma VisitWalks(reg: Registry, st: Run, i: int, j: int, same: bool, sameInv: bool, answers: Oracle, key: Key)
    requires AllLimited(answers) && Going(st, i, same) && 0 <= j < |st.dst| && st.count > 0 && OfKind(st.src[i], key)
    ensures var o, h := OfferOf(st.dst, j, OwnOf(i, same)), HandOf(st, i);
            var r := Visit(reg, st, i, j, same, sameInv, answers);
            && (r.aborted <==> Overrun(o, h)) && |r.src| == |st.src|
            && (r.aborted ==> Accounts(st, r, i, same, key, 0, 0))
            && (!r.aborted ==>
                  GoesOn(st, r, i, j, same) && SteppedTo(reg, st, r, i, o, same, sameInv, answers(st.visits), key))
  {
    if st.src[i].Empty() || (same && i == j) {
      IdleVisit(reg, st, i, j, same, sameInv, answers);
    } else {
      TriedWalks(reg, st, i, j, same, sameInv, answers, key);
    }
  }

  // ----- A pass -----

  /** `r` is where the walk over `offers` leads from `st`. */
  ghost predicate WalkedTo(reg: Registry, st: Run, r: Run, i: int, offers: seq<Offer>, same: bool, sameInv: bool,
                           answers: Oracle, key: Key)
    requires AllLimited(answers) && Going(st, i, same)
  {
    var h := HandOf(st, i);
    && |r.src| == |st.src| && (r.aborted <==> Overruns(reg, offers, h, sameInv, answers))
    && (!r.aborted ==>
          Going(r, i, same) && OfKind(r.src[i], key) && HandOf(r, i) == After(reg, offers, h, sameInv, answers))
    && Accounts(st, r, i, same, key, Losses(LeftBehind, reg, offers, h, sameInv, answers),
                Losses(Lost, reg, offers, h, sameInv, answers))
  }

  /** Apart from the source slot, the same slots are empty. */
  ghost predicate SameEmptySlots(a: seq<ItemStack>, b: seq<ItemStack>, own: Option<int>) {
    && |a| == |b|
    && (forall k :: 0 <= k < |a| && own != Some(k) ==> a[k].Empty() == b[k].Empty() && (a[k].Empty() ==> a[k] == b[k]))
  }

  lemma {:induction false} SameOffers(a: seq<ItemStack>, b: seq<ItemStack>, j: nat, size: int, empty: bool,
                                      own: Option<int>)
    requires size <= |a| == |b|
    requires forall k :: j <= k < size && own != Some(k) ==>
               a[k].Empty() == b[k].Empty() && (a[k].Empty() == empty ==> a[k] == b[k])
    ensures Offers(a, j, size, empty, own) == Offers(b, j, size, empty, own)
    decreases size - j
  {
    if j < size {
      SameOffers(a, b, j + 1, size, empty, own);
      if own != Some(j) {
        assert a[j].Empty() == b[j].Empty() && (a[j].Empty() == empty ==> [Slot(a[j])] == [Slot(b[j])]);
      }
    }
  }

  lemma WalksTwice(reg: Registry, st: Run, mid: Run, r: Run, i: int, o: Offer, rest: seq<Offer>, same: bool,
                   sameInv: bool, answers: Oracle, key: Key)
    requires AllLimited(answers) && Going(st, i, same) && st.count > 0
    requires var h := HandOf(st, i);
             && |mid.src| == |st.src| && (mid.aborted <==> Overrun(o, h))
             && (mid.aborted ==> r == mid && Accounts(st, mid, i, same, key, 0, 0))
             && (!mid.aborted ==>
                   && SteppedTo(reg, st, mid, i, o, same, sameInv, answers(st.visits), key)
                   && WalkedTo(reg, mid, r, i, rest, same, sameInv, answers, key))
    ensures WalkedTo(reg, st, r, i, [o] + rest, same, sameInv, answers, key)
  {
    assert ([o] + rest)[1..] == rest;
  }

  /** An offer that is skipped might as well not be made. */
  lemma SkippedOffer(reg: Registry, st: Run, r: Run, i: int, o: Offer, rest: seq<Offer>, same: bool, sameInv: bool,
                     answers: Oracle, key: Key)
    requires AllLimited(answers) && Going(st, i, same) && Skipped(o, HandOf(st, i))
    requires WalkedTo(reg, st, r, i, rest, same, sameInv, answers, key)
    ensures WalkedTo(reg, st, r, i, [o] + rest, same, sameInv, answers, key)
  {
    assert ([o] + rest)[1..] == rest;
  }

  lemma StaysPut(reg: Registry, st: Run, i: int, offers: seq<Offer>, same: bool, sameInv: bool, answers: Oracle,
                 key: Key)
    requires AllLimited(answers) && Going(st, i, same) && OfKind(st.src[i], key) && (offers == [] || st.count == 0)
    ensures WalkedTo(reg, st, st, i, offers, same, sameInv, answers, key)
  {
  }

  lemma VisitWalksOn(reg: Registry, st: Run, r: Run, i: int, j: int, rest: seq<Offer>, same: bool, sameInv: bool,
                     answers: Oracle, key: Key)
    requires AllLimited(answers) && Going(st, i, same) && 0 <= j < |st.dst| && st.count > 0 && OfKind(st.src[i], key)
    requires var mid := Visit(reg, st, i, j, same, sameInv, answers);
             if mid.aborted then r == mid
             else Going(mid, i, same) && WalkedTo(reg, mid, r, i, rest, same, sameInv, answers, key)
    ensures WalkedTo(reg, st, r, i, [OfferOf(st.dst, j, OwnOf(i, same))] + rest, same, sameInv, answers, key)
  {
    VisitWalks(reg, st, i, j, same, sameInv, answers, key);
    WalksTwice(reg, st, Visit(reg, st, i, j, same, sameInv, answers), r, i, OfferOf(st.dst, j, OwnOf(i, same)), rest,
               same, sameInv, answers, key);
  }

  /** A visit changes nothing that is offered later in the pass. */
  lemma VisitKeepsOffers(reg: Registry, st: Run, i: int, j: nat, size: int, empty: bool, same: bool, sameInv: bool,
                         answers: Oracle, key: Key)
    requires AllLimited(answers) && Going(st, i, same) && j < size <= |st.dst| && st.count > 0 && OfKind(st.src[i], key)
    ensures var mid := Visit(reg, st, i, j, same, sameInv, answers);
            !mid.aborted ==>
              && GoesOn(st, mid, i, j, same) && OfKind(mid.src[i], key)
              && Offers(mid.dst, j + 1, size, empty, OwnOf(i, same)) ==
                 Offers(st.dst, j + 1, size, empty, OwnOf(i, same))
  {
    var mid := Visit(reg, st, i, j, same, sameInv, answers);
    VisitWalks(reg, st, i, j, same, sameInv, answers, key);
    if !mid.aborted {
      SameOffers(st.dst, mid.dst, j + 1, size, empty, OwnOf(i, same));
    }
  }

  /** Slot `j` belongs to the other pass. */
  lemma PassesBy(reg: Registry, st: Run, r: Run, i: int, j: nat, size: int, empty: bool, same: bool, sameInv: bool,
                 answers: Oracle, key: Key)
    requires AllLimited(answers) && Going(st, i, same) && j < size <= |st.dst| && st.dst[j].Empty() != empty
    requires WalkedTo(reg, st, r, i, Offers(st.dst, j + 1, size, empty, OwnOf(i, same)), same, sameInv, answers, key)
    ensures WalkedTo(reg, st, r, i, Offers(st.dst, j, size, empty, OwnOf(i, same)), same, sameInv, answers, key)
  {
    var rest := Offers(st.dst, j + 1, size, empty, OwnOf(i, same));
    if OwnOf(i, same) == Some(j) {
      SkippedOffer(reg, st, r, i, Own(empty), rest, same, sameInv, answers, key);
    } else {
      assert [] + rest == rest;
    }
  }

  lemma HeadOffer(items: seq<ItemStack>, j: nat, size: int, own: Option<int>)
    requires j < size <= |items|
    ensures Offers(items, j, size, items[j].Empty(), own) ==
            [OfferOf(items, j, own)] + Offers(items, j + 1, size, items[j].Empty(), own)
  {
  }

  lemma {:induction false} PassWalks(reg: Registry, st: Run, i: int, j: nat, size: int, empty: bool, same: bool,
                                     sameInv: bool, answers: Oracle, key: Key)
    requires AllLimited(answers) && Going(st, i, same) && size <= |st.dst| && OfKind(st.src[i], key)
    ensures WalkedTo(reg, st, Visits(reg, st, i, j, size, empty, same, sameInv, answers), i,
                     Offers(st.dst, j, size, empty, OwnOf(i, same)), same, sameInv, answers, key)
    decreases size - j
  {
    if j >= size || st.count == 0 {
      StaysPut(reg, st, i, Offers(st.dst, j, size, empty, OwnOf(i, same)), same, sameInv, answers, key);
    } else if st.dst[j].Empty() != empty {
      PassWalks(reg, st, i, j + 1, size, empty, same, sameInv, answers, key);
      PassesBy(reg, st, Visits(reg, st, i, j + 1, size, empty, same, sameInv, answers), i, j, size, empty, same,
               sameInv,
               answers, key);
    } else {
      var mid := Visit(reg, st, i, j, same, sameInv, answers);
      VisitKeepsSizes(reg, st, i, j, same, sameInv, answers);
      VisitKeepsOffers(reg, st, i, j, size, empty, same, sameInv, answers, key);
      if !mid.aborted {
        PassWalks(reg, mid, i, j + 1, size, empty, same, sameInv, answers, key);
      }
      VisitWalksOn(reg, st, Visits(reg, mid, i, j + 1, size, empty, same, sameInv, answers), i, j,
                   Offers(st.dst, j + 1, size, empty, OwnOf(i, same)), same, sameInv, answers, key);
      HeadOffer(st.dst, j, size, OwnOf(i, same));
    }
  }

  lemma VisitKeepsEmptySlots(reg: Registry, st: Run, i: int, j: nat, same: bool, sameInv: bool, answers: Oracle)
    requires AllLimited(answers) && Going(st, i, same) && j < |st.dst| && st.count > 0 && !st.dst[j].Empty()
    ensures var r := Visit(reg, st, i, j, same, sameInv, answers);
            !r.aborted ==> Going(r, i, same) && SameEmptySlots(st.dst, r.dst, OwnOf(i, same))
  {
    VisitWalks(reg, st, i, j, same, sameInv, answers, KeyOf(st.src[i]));
  }

  lemma SameEmptySlotsTrans(a: seq<ItemStack>, b: seq<ItemStack>, c: seq<ItemStack>, own: Option<int>)
    requires SameEmptySlots(a, b, own) && SameEmptySlots(b, c, own)
    ensures SameEmptySlots(a, c, own)
  {
  }

  lemma {:induction false} PassKeepsEmptySlots(reg: Registry, st: Run, i: int, j: nat, size: int, same: bool,
                                               sameInv: bool, answers: Oracle)
    requires AllLimited(answers) && Going(st, i, same) && size <= |st.dst|
    ensures var r := Visits(reg, st, i, j, size, false, same, sameInv, answers);
            !r.aborted ==> Going(r, i, same) && SameEmptySlots(st.dst, r.dst, OwnOf(i, same))
    decreases size - j
  {
    if j < size && st.count > 0 {
      if st.dst[j].Empty() {
        PassKeepsEmptySlots(reg, st, i, j + 1, size, same, sameInv, answers);
      } else {
        var mid := Visit(reg, st, i, j, same, sameInv, answers);
        VisitKeepsSizes(reg, st, i, j, same, sameInv, answers);
        VisitKeepsEmptySlots(reg, st, i, j, same, sameInv, answers);
        var r := Visits(reg, mid, i, j + 1, size, false, same, sameInv, answers);
        if !mid.aborted {
          PassKeepsEmptySlots(reg, mid, i, j + 1, size, same, sameInv, answers);
          if !r.aborted {
            SameEmptySlotsTrans(st.dst, mid.dst, r.dst, OwnOf(i, same));
          }
        }
      }
    }
  }

  // ----- Both passes -----

  lemma {:induction false} WalkOn(reg: Registry, a: seq<Offer>, b: seq<Offer>, h: Hand, sameInv: bool, answers: Oracle)
    requires AllLimited(answers)
    ensures var mid := After(reg, a, h, sameInv, answers);
            var over := Overruns(reg, a, h, sameInv, answers);
            && (Overruns(reg, a + b, h, sameInv, answers) <==> over || Overruns(reg, b, mid, sameInv, answers))
            && (!over ==> After(reg, a + b, h, sameInv, answers) == After(reg, b, mid, sameInv, answers))
            && (forall what :: Losses(what, reg, a + b, h, sameInv, answers) ==
                  Losses(what, reg, a, h, sameInv, answers) + if over then 0
                                                              else Losses(what, reg, b, mid, sameInv, answers))
  {
    if a == [] {
      assert a + b == b;
    } else if h.count > 0 && !Overrun(a[0], h) {
      assert (a + b)[1..] == a[1..] + b;
      WalkOn(reg, a[1..], b, Next(reg, a[0], h, sameInv, answers(h.visits)), sameInv, answers);
    }
  }

  /**
   The whole loop is one walk over the slots as they are at the beginning, first the occupied
   and then the empty ones.
   */
  lemma EverywhereIsWalk(reg: Registry, first: Run, i: int, size: int, same: bool, sameInv: bool, answers: Oracle)
    requires AllLimited(answers) && Going(first, i, same) && size <= |first.dst|
    ensures WalkedTo(reg, first, Everywhere(reg, first, i, size, same, sameInv, answers), i,
                     AllOffers(first.dst, size, OwnOf(i, same)), same, sameInv, answers, KeyOf(first.src[i]))
  {
    var own, key := OwnOf(i, same), KeyOf(first.src[i]);
    var occupied, empties := Offers(first.dst, 0, size, false, own), Offers(first.dst, 0, size, true, own);
    var mid := Visits(reg, first, i, 0, size, false, same, sameInv, answers);
    PassWalks(reg, first, i, 0, size, false, same, sameInv, answers, key);
    WalkOn(reg, occupied, empties, HandOf(first, i), sameInv, answers);
    if !mid.aborted {
      PassKeepsEmptySlots(reg, first, i, 0, size, same, sameInv, answers);
      SameOffers(first.dst, mid.dst, 0, size, true, own);
      PassWalks(reg, mid, i, 0, size, true, same, sameInv, answers, key);
    }
  }
}
