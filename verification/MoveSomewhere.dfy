/**
 The move-somewhere loop: the server offers the stack to each occupied slot and then to each
 empty one, one applied move per slot, under callbacks of its own.
 */
module MoveSomewhere {
  import opened Common
  import opened Items
  import opened Stacks
  import opened Inventory
  import opened MoveRules

  /**
   State of the loop: the lists, the action's `count` and `move_count`, the sum of all
   `move_count`s so far, the number of visits, and whether the assertion in it has failed.
   */
  datatype Run = Run(src: seq<ItemStack>, dst: seq<ItemStack>, count: U16, moveCount: int, total: int, visits: nat,
                     aborted: bool)

  type Oracle = nat -> Answers

  ghost predicate Answering(answers: Oracle) {
    forall v: nat :: AtLeastMinusOne(answers(v))
  }

  /** One slot: apply the move to slot `j`, check the assertion, reduce `count`. */
  ghost function Visit(reg: Registry, st: Run, i: int, j: int, same: bool, sameInv: bool, answers: Oracle): (r: Run)
    requires Answering(answers) && (same ==> st.dst == st.src)
  {
    var e := Apply(reg, st.src, i, st.dst, j, same, sameInv, true, st.count, st.moveCount, answers(st.visits));
    if e.moveCount < 0 || e.moveCount > e.count then
      Run(e.src, e.dst, e.count, e.moveCount, st.total, st.visits + 1, true)
    else
      Run(e.src, e.dst, e.count - e.moveCount, e.moveCount, st.total + e.moveCount, st.visits + 1, false)
  }

  lemma VisitKeepsSizes(reg: Registry, st: Run, i: int, j: int, same: bool, sameInv: bool, answers: Oracle)
    requires Answering(answers) && (same ==> st.src == st.dst)
    ensures var r := Visit(reg, st, i, j, same, sameInv, answers);
            |r.dst| == |st.dst| && |r.src| == |st.src| && (same ==> r.src == r.dst)
  {
  }

  /** Visit the slots from `j` on that are empty, or that are not, while items remain. */
  ghost function Visits(reg: Registry, st: Run, i: int, j: nat, size: int, empty: bool, same: bool, sameInv: bool,
                        answers: Oracle): (r: Run)
    requires Answering(answers) && size <= |st.dst| && (same ==> st.src == st.dst)
    ensures |r.dst| == |st.dst| && (same ==> r.src == r.dst)
    decreases size - j
  {
    if j >= size || st.count == 0 || st.aborted then st
    else if st.dst[j].Empty() != empty then Visits(reg, st, i, j + 1, size, empty, same, sameInv, answers)
    else
      VisitKeepsSizes(reg, st, i, j, same, sameInv, answers);
      Visits(reg, Visit(reg, st, i, j, same, sameInv, answers), i, j + 1, size, empty, same, sameInv, answers)
  }

  ghost function Everywhere(reg: Registry, st: Run, i: int, size: int, same: bool, sameInv: bool, answers: Oracle): Run
    requires Answering(answers) && size <= |st.dst| && (same ==> st.src == st.dst)
  {
    Visits(reg, Visits(reg, st, i, 0, size, false, same, sameInv, answers), i, 0, size, true, same, sameInv, answers)
  }

  /** The slot count is kept in a signed 16-bit variable. */
  function SizeAsSigned(n: nat): (r: int)
    ensures r <= n
    ensures n < 0x8000 ==> r == n
    ensures 0x8000 <= n < 0x1_0000 ==> r == n - 0x1_0000
    ensures n >= 0x1_0000 ==> r == SizeAsSigned(n % 0x1_0000)
  {
    var m := n % 0x1_0000;
    if m < 0x8000 then m else m - 0x1_0000
  }

  // ----- When the assertion in the loop holds -----

  /** Without room on the way back mattering, a move never reports more than was asked. */
  lemma MovedAtMost(reg: Registry, s: ItemStack, d: Option<ItemStack>, count: nat)
    requires WellFormed(s) && count > 0
    ensures var r := MoveSlots(reg, s, d, count, false);
            !r.swapped && 0 <= r.moved <= count
  {
  }

  /** The assertion in a visit fails exactly for a stale `move_count`: nothing was attempted. */
  lemma VisitAbortsIff(reg: Registry, st: Run, i: int, j: int, same: bool, sameInv: bool, answers: Oracle)
    requires Answering(answers) && AllWellFormed(st.src) && AllWellFormed(st.dst) && (same ==> st.dst == st.src)
    requires 0 <= i < |st.src| && 0 <= j < |st.dst| && st.count > 0 && st.moveCount >= 0
    ensures Visit(reg, st, i, j, same, sameInv, answers).aborted
            <==> (st.src[i].Empty() || (same && i == j)) && st.moveCount > st.count
  {
    var a := answers(st.visits);
    if !st.src[i].Empty() && !(same && i == j) {
      var v := Judge(reg, st.src[i], st.dst[j], st.count, true, sameInv, a);
      if v.Proceed? && v.count > 0 {
        MovedAtMost(reg, st.src[i], SlotAt(st.dst, j), v.count);
      }
    }
  }

  // ----- Accounting over the whole loop -----

  /** `st` results from `first` by moving `st.total` items off slot `i`, nothing else. */
  ghost predicate Accounted(reg: Registry, first: Run, st: Run, i: int) {
    && |st.src| == |first.src| && 0 <= i < |st.src| && |st.dst| == |first.dst|
    && AllWellFormed(st.src) && AllWellFormed(st.dst)
    && !st.aborted
    && SameTotals(first.src, st.src, false, first.dst, st.dst)
    && st.src == first.src[i := st.src[i]]
    && st.src[i].count == first.src[i].count - st.total
    && (st.src[i].count > 0 ==> st.src[i] == first.src[i].(count := st.src[i].count))
    && 0 <= st.total && st.total + st.count <= first.count
    && st.count <= st.src[i].count
    && st.src[i].count <= reg.Get(st.src[i].name).stackMax
  }

  lemma SameTotalsTrans(a: seq<ItemStack>, b: seq<ItemStack>, c: seq<ItemStack>, a': seq<ItemStack>, b': seq<ItemStack>,
                        c': seq<ItemStack>)
    requires SameTotals(a, b, false, a', b') && SameTotals(b, c, false, b', c')
    ensures SameTotals(a, c, false, a', c')
  {
    forall key ensures Both(c, c', false, key) == Both(a, a', false, key) {
      assert Both(b, b', false, key) == Both(a, a', false, key);
    }
  }

  lemma UnswappedSource(reg: Registry, s: ItemStack, d: Option<ItemStack>, count: nat)
    requires WellFormed(s) && (d.Some? ==> WellFormed(d.value)) && s.count <= reg.Get(s.name).stackMax && count > 0
    ensures var r := MoveSlots(reg, s, d, count, false);
            && !r.swapped && 0 <= r.moved <= count && r.src.count == s.count - r.moved
            && (r.src.count > 0 ==> r.src == s.(count := r.src.count))
  {
  }

  lemma VisitAccounts(reg: Registry, first: Run, st: Run, i: int, j: int, sameInv: bool, answers: Oracle)
    requires Answering(answers) && (forall v: nat :: NonNegative(answers(v)))
    requires Accounted(reg, first, st, i) && 0 <= j < |st.dst| && st.count > 0
    ensures Accounted(reg, first, Visit(reg, st, i, j, false, sameInv, answers), i)
  {
    var a := answers(st.visits);
    ApplyConserves(reg, st.src, i, st.dst, j, false, sameInv, true, st.count, st.moveCount, a);
    var e := Apply(reg, st.src, i, st.dst, j, false, sameInv, true, st.count, st.moveCount, a);
    SameTotalsTrans(first.src, st.src, e.src, first.dst, st.dst, e.dst);
    var v := Judge(reg, st.src[i], st.dst[j], st.count, true, sameInv, a);
    if v.Proceed? && v.count > 0 {
      UnswappedSource(reg, st.src[i], SlotAt(st.dst, j), v.count);
      assert e.src == st.src[i := e.src[i]];
    }
  }

  lemma {:induction false} VisitsAccount(reg: Registry, first: Run, st: Run, i: int, j: nat, size: int, empty: bool,
                                         sameInv: bool, answers: Oracle)
    requires Answering(answers) && (forall v: nat :: NonNegative(answers(v)))
    requires Accounted(reg, first, st, i) && size <= |st.dst|
    ensures Accounted(reg, first, Visits(reg, st, i, j, size, empty, false, sameInv, answers), i)
    decreases size - j
  {
    if j < size && st.count > 0 {
      if st.dst[j].Empty() != empty {
        VisitsAccount(reg, first, st, i, j + 1, size, empty, sameInv, answers);
      } else {
        VisitAccounts(reg, first, st, i, j, sameInv, answers);
        VisitsAccount(reg, first, Visit(reg, st, i, j, false, sameInv, answers), i, j + 1, size, empty, sameInv,
                      answers);
      }
    }
  }

  /**
   Between different lists, for at most as many items as there are, and whatever the
   callbacks answer: no assertion fails, the source loses exactly the sum of the reported
   counts, never more than was asked, and no kind of item changes in total.
   */
  lemma EverywhereAccounts(reg: Registry, first: Run, i: int, size: int, sameInv: bool, answers: Oracle)
    requires Answering(answers) && (forall v: nat :: NonNegative(answers(v)))
    requires AllWellFormed(first.src) && AllWellFormed(first.dst) && size <= |first.dst|
    requires 0 <= i < |first.src| && first.src[i].count <= reg.Get(first.src[i].name).stackMax
    requires first.count <= first.src[i].count && first.total == 0 && !first.aborted
    ensures var r := Everywhere(reg, first, i, size, false, sameInv, answers);
            && !r.aborted && |r.src| == |first.src|
            && r.src[i].count == first.src[i].count - r.total && r.total <= first.count
            && r.src == first.src[i := r.src[i]]
            && SameTotals(first.src, r.src, false, first.dst, r.dst)
  {
    assert first.src == first.src[i := first.src[i]];
    assert Accounted(reg, first, first, i);
    VisitsAccount(reg, first, first, i, 0, size, false, sameInv, answers);
    var mid := Visits(reg, first, i, 0, size, false, false, sameInv, answers);
    VisitsAccount(reg, first, mid, i, 0, size, true, sameInv, answers);
  }

  // ----- One visit -----

  ghost predicate AllLimited(answers: Oracle) {
    Answering(answers) && forall v: nat :: NonNegative(answers(v))
  }

  ghost predicate AllPermitted(answers: Oracle) {
    Answering(answers) && forall v: nat :: Permissive(answers(v))
  }

  ghost predicate InForm(st: Run, i: int) {
    0 <= i < |st.src| && AllWellFormed(st.src) && AllWellFormed(st.dst)
  }

  /** There is something to move off slot `i`. */
  ghost predicate Moving(st: Run, i: int) {
    InForm(st, i) && !st.aborted && st.count > 0 && !st.src[i].Empty()
  }

  /** What the callbacks leave of `n`; within one inventory one of them answers for both ends. */
  function Limit(n: U16, sameInv: bool, a: Answers): (r: U16)
    requires NonNegative(a)
    ensures r <= n && r <= a.take && (!sameInv ==> r <= a.put)
    ensures r == n || r == a.take || (!sameInv && r == a.put)
    ensures Permissive(a) ==> r == n
    ensures r == 0 <==> n == 0 || a.take == 0 || (!sameInv && a.put == 0)
  {
    Cap(Cap(n, a.take), if sameInv then a.take else a.put)
  }

  /** The source slot after `part` has been taken and what slot `d` leaves of it put back. */
  function PutBack(reg: Registry, s: ItemStack, d: ItemStack, part: ItemStack): ItemStack {
    if Accepted(reg, d, part) == 0 then s
    else AddTo(reg, TakeUpTo(s, part.count).rest, AddTo(reg, d, part).leftover).slot
  }

  /** A slot that takes some of one portion takes some of every other. */
  lemma PartMove(reg: Registry, s: ItemStack, d: ItemStack, count: U16, n: U16)
    requires WellFormed(s) && WellFormed(d) && !s.Empty() && count > 0 && 0 < n <= Asked(s, count).count
    ensures var part := s.(count := n); var acc := Accepted(reg, d, part);
            && n <= count && n <= s.count && acc <= n
            && (acc > 0 <==> Accepted(reg, d, Asked(s, count)) > 0)
            && (acc > 0 ==> MoveSlots(reg, s, Some(d), n, false)
                            == Moved(PutBack(reg, s, d, part), Some(AddTo(reg, d, part).slot), acc, false))
            && (acc == 0 ==> AddTo(reg, d, part) == Added(d, part))
            && WellFormed(PutBack(reg, s, d, part)) && WellFormed(AddTo(reg, d, part).slot)
  {
    var part := s.(count := n);
    AddAccepts(reg, d, part);
    AddConserves(reg, d, part, KeyOf(part));
    TakeUpToConserves(s, n, KeyOf(s));
    AddConserves(reg, TakeUpTo(s, n).rest, AddTo(reg, d, part).leftover, KeyOf(s));
  }

  lemma TriedVerdict(reg: Registry, s: ItemStack, d: ItemStack, count: U16, sameInv: bool, a: Answers)
    requires NonNegative(a) && !s.Empty() && count > 0
    ensures var asked, v := Asked(s, count), Judge(reg, s, d, count, true, sameInv, a);
            if Accepted(reg, d, asked) == 0 then v.NothingFits?
            else v == Proceed(Limit(asked.count, sameInv, a), false, v.take, v.put, v.moveCount)
                 && v.take != -1 && v.put != -1
  {
    FitPredictsAdd(reg, d, Asked(s, count));
    AddAccepts(reg, d, Asked(s, count));
  }

  /** Trying a slot: it takes nothing, a callback allows nothing, or part of the stack is moved. */
  lemma TriedVisit(reg: Registry, st: Run, i: int, j: int, same: bool, sameInv: bool, answers: Oracle)
    requires AllLimited(answers) && Moving(st, i) && 0 <= j < |st.dst|
    requires (same ==> st.src == st.dst) && !(same && i == j)
    ensures var s, d, asked := st.src[i], st.dst[j], Asked(st.src[i], st.count);
            var n := Limit(asked.count, sameInv, answers(st.visits));
            var part, r := s.(count := n), Visit(reg, st, i, j, same, sameInv, answers);
            && !r.aborted && r.visits == st.visits + 1
            && (Accepted(reg, d, asked) == 0 || n == 0 ==>
                  r.src == st.src && r.dst == st.dst && r.moveCount == 0
                  && r.count == if Accepted(reg, d, asked) == 0 then st.count else 0)
            && (Accepted(reg, d, asked) > 0 && n > 0 ==>
                  && 0 < Accepted(reg, d, part) <= n <= st.count
                  && r.moveCount == Accepted(reg, d, part) && r.count == st.count - r.moveCount
                  && r.dst == (if same then st.src[i := PutBack(reg, s, d, part)]
                               else st.dst)[j := AddTo(reg, d, part).slot]
                  && r.src == if same then r.dst else st.src[i := PutBack(reg, s, d, part)])
  {
    var s, d, asked := st.src[i], st.dst[j], Asked(st.src[i], st.count);
    var n := Limit(asked.count, sameInv, answers(st.visits));
    TriedVerdict(reg, s, d, st.count, sameInv, answers(st.visits));
    if n > 0 {
      PartMove(reg, s, d, st.count, n);
      MoveAsSlots(reg, st.src, i, st.dst, j, same, n, false);
    }
  }

  /** Nothing is tried: the last number is repeated, or too large. */
  lemma IdleVisit(reg: Registry, st: Run, i: int, j: int, same: bool, sameInv: bool, answers: Oracle)
    requires Answering(answers) && (same ==> st.src == st.dst) && 0 <= i < |st.src| && 0 <= j < |st.dst|
    requires st.moveCount >= 0 && (st.src[i].Empty() || (same && i == j))
    ensures var r := Visit(reg, st, i, j, same, sameInv, answers);
            && r.src == st.src && r.dst == st.dst && r.moveCount == st.moveCount && r.visits == st.visits + 1
            && (r.aborted <==> st.moveCount > st.count)
            && r.count == if r.aborted then st.count else st.count - st.moveCount
  {
  }

  lemma VisitKeepsForm(reg: Registry, st: Run, i: int, j: int, same: bool, sameInv: bool, answers: Oracle)
    requires Answering(answers) && AllWellFormed(st.src) && AllWellFormed(st.dst) && (same ==> st.src == st.dst)
    ensures var r := Visit(reg, st, i, j, same, sameInv, answers); AllWellFormed(r.src) && AllWellFormed(r.dst)
  {
    ApplyKeepsForm(reg, st.src, i, st.dst, j, same, sameInv, true, st.count, st.moveCount, answers(st.visits));
  }

  /** Between two lists, with everything permitted. */
  lemma FilledVisit(reg: Registry, st: Run, i: int, j: int, sameInv: bool, answers: Oracle)
    requires AllPermitted(answers) && Moving(st, i) && 0 <= j < |st.dst|
    ensures var hand := Asked(st.src[i], st.count);
            var n, r := Accepted(reg, st.dst[j], hand), Visit(reg, st, i, j, false, sameInv, answers);
            && InForm(r, i) && n <= hand.count && !r.aborted && r.count == st.count - n && r.moveCount == n
            && r.dst == st.dst[j := AddTo(reg, st.dst[j], hand).slot]
            && r.src == st.src[i := PutBack(reg, st.src[i], st.dst[j], hand)]
            && (n == 0 ==> r.src == st.src)
  {
    var s, d := st.src[i], st.dst[j];
    var hand := Asked(s, st.count);
    PartMove(reg, s, d, st.count, hand.count);
    TriedVisit(reg, st, i, j, false, sameInv, answers);
    VisitKeepsForm(reg, st, i, j, false, sameInv, answers);
    assert st.dst[j := d] == st.dst && st.src[i := s] == st.src && s.(count := hand.count) == hand;
  }

  // ----- Client prediction when 0 is asked for -----

  /** Asked for 0, which elsewhere means everything, the server moves nothing at all. */
  lemma ZeroMovesNothing(reg: Registry, first: Run, i: int, size: int, same: bool, sameInv: bool, answers: Oracle)
    requires Answering(answers) && size <= |first.dst| && (same ==> first.src == first.dst) && first.count == 0
    ensures Everywhere(reg, first, i, size, same, sameInv, answers) == first
  {
  }

  /**
   The client takes 0 to mean everything, so its prediction is then right exactly when there
   is nothing to move, or no room for any of it.
   */
  lemma ZeroPredictionAgreesIff(reg: Registry, first: Run, i: int, size: int, sameInv: bool, answers: Oracle)
    requires Answering(answers) && AllWellFormed(first.src) && AllWellFormed(first.dst) && size <= |first.dst|
    requires 0 <= i < |first.src| && first.count == 0
    ensures var server := Everywhere(reg, first, i, size, false, sameInv, answers);
            Relocated(server.src, server.dst) == Relocate(reg, first.src, i, first.dst, 0)
            <==> first.src[i].Empty()
                 || (!HasEmptySlot(first.dst, 0) && MatchingFree(reg, first.dst, 0, first.src[i]) == 0)
  {
    var s := first.src[i];
    ZeroMovesNothing(reg, first, i, size, false, sameInv, answers);
    assert first.src[i := s] == first.src;
    if !s.Empty() {
      var a := AddAll(reg, first.dst, s);
      NothingAddedIff(reg, first.dst, s);
      AddAllConserves(reg, first.dst, s, KeyOf(s));
      assert Relocate(reg, first.src, i, first.dst, 0).src[i] == AddTo(reg, EMPTY_STACK, a.leftover).slot;
    }
  }
}
