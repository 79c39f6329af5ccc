/**
 What one server-side move does to the two lists, given the answers of the callbacks, and
 the laws it obeys: nothing is lost, swaps happen exactly when allowed, and the client's
 prediction agrees with it.
 */
module MoveRules {
  import opened Common
  import opened Items
  import opened Stacks
  import opened Inventory

  /**
   The integers the permission callbacks return: for the move itself and, when the stacks
   are to be exchanged, for the opposite direction.  -1 stands for "unlimited".
   */
  datatype Answers = Answers(put: int, take: int, swapPut: int, swapTake: int)

  predicate NonNegative(a: Answers) {
    a.put >= 0 && a.take >= 0 && a.swapPut >= 0 && a.swapTake >= 0
  }

  predicate AtLeastMinusOne(a: Answers) {
    a.put >= -1 && a.take >= -1 && a.swapPut >= -1 && a.swapTake >= -1
  }

  /** No callback ever limits a 16-bit count. */
  predicate Permissive(a: Answers) {
    a.put >= 0xFFFF && a.take >= 0xFFFF && a.swapPut >= 0xFFFF && a.swapTake >= 0xFFFF
  }

  predicate Allows(answer: int, n: int) {
    answer == -1 || answer >= n
  }

  function Cap(n: U16, answer: int): (r: U16)
    requires answer >= -1
    ensures r <= n
  {
    if answer != -1 && n > answer then answer else n
  }

  // ----- The decision -----

  /** `take` and `put` are the limits finally applied, `moveCount` what would fit. */
  datatype Verdict =
    | SourceEmpty
    | NothingFits
    | Proceed(count: U16, allowSwap: bool, take: int, put: int, moveCount: U16)

  /** The part of the source stack that is asked for. */
  function Asked(s: ItemStack, count: U16): ItemStack {
    if 0 < count < s.count then s.(count := count) else s
  }

  function RestCount(reg: Registry, s: ItemStack, d: ItemStack, count: U16): (n: U16)
    ensures n <= Asked(s, count).count
  {
    RestAfterFit(reg, d, Asked(s, count)).count
  }

  predicate WantsSwap(reg: Registry, s: ItemStack, d: ItemStack, count: U16, caused: bool) {
    var asked := Asked(s, count);
    !RestAfterFit(reg, d, asked).Empty() && RestCount(reg, s, d, count) == asked.count && !caused
  }

  /** What the callbacks leave: the limits at both ends, and whether to exchange the stacks. */
  datatype Granted = Granted(take: int, put: int, allowSwap: bool)

  /**
   Within one inventory one callback answers for both ends.  An exchange has to be allowed
   in both directions; if it was wanted and is not, nothing is granted.
   */
  function Grant(wantsSwap: bool, n: U16, back: U16, sameInv: bool, a: Answers): Granted {
    var first := wantsSwap && Allows(a.take, n);
    var allowSwap := if sameInv then first && Allows(a.swapTake, back)
                     else first && Allows(a.put, n) && Allows(a.swapPut, back) && Allows(a.swapTake, back);
    if wantsSwap != allowSwap then Granted(0, 0, allowSwap)
    else Granted(a.take, if !sameInv then a.put else if first then a.swapTake else a.take, allowSwap)
  }

  function Judge(reg: Registry, s: ItemStack, d: ItemStack, count: U16, caused: bool, sameInv: bool,
                 a: Answers): Verdict
    requires AtLeastMinusOne(a)
  {
    var asked := Asked(s, count);
    if asked.Empty() then SourceEmpty
    else
      var moveCount: U16 := asked.count - RestCount(reg, s, d, count);
      if caused && moveCount == 0 then NothingFits
      else
        var wantsSwap := WantsSwap(reg, s, d, count, caused);
        // A swap affects the entire stack.
        var src := if wantsSwap then s else asked;
        var g := Grant(wantsSwap, src.count, d.count, sameInv, a);
        Proceed(Cap(Cap(src.count, g.take), g.put), g.allowSwap, g.take, g.put, moveCount)
  }

  /** A swap that was announced takes place, and no other does, whatever the callbacks said. */
  lemma SwapAsAnnounced(reg: Registry, s: ItemStack, d: ItemStack, count: U16, caused: bool, sameInv: bool, a: Answers)
    requires AtLeastMinusOne(a) && WellFormed(s) && WellFormed(d)
    ensures var v := Judge(reg, s, d, count, caused, sameInv, a);
            v.Proceed? && v.count > 0 ==> MoveSlots(reg, s, Some(d), v.count, v.allowSwap).swapped == v.allowSwap
  {
    var v := Judge(reg, s, d, count, caused, sameInv, a);
    if v.Proceed? && v.count > 0 {
      TakeConserves(s, v.count, KeyOf(s));
      assert v.count <= s.count;
      if v.allowSwap {
        NothingOfItFits(reg, s, d, count, v.count);
      }
    }
  }

  /** If no part of one portion of a stack fits, no part of any other does. */
  lemma NothingOfItFits(reg: Registry, s: ItemStack, d: ItemStack, count: U16, n: U16)
    requires WellFormed(s) && 0 < n <= s.count
    requires WantsSwap(reg, s, d, count, false)
    ensures AddTo(reg, d, TakeUpTo(s, n).item) == Added(d, TakeUpTo(s, n).item)
    ensures TakeUpTo(s, n).item.count == n
  {
  }

  // ----- The effect -----

  /** The two lists and the action's `count` and `move_count` fields. */
  datatype Effect = Effect(src: seq<ItemStack>, dst: seq<ItemStack>, count: U16, moveCount: int)

  /** A stack displaced from the destination goes to the first empty slot, if there is one. */
  function PutAside(items: seq<ItemStack>, i: nat, s: ItemStack): (r: seq<ItemStack>)
    requires i <= |items|
    ensures |r| == |items|
    decreases |items| - i
  {
    if i == |items| then items
    else if items[i].Empty() then items[i := s]
    else PutAside(items, i + 1, s)
  }

  /** Emptying a slot and adding a stack to it. */
  function Restored(reg: Registry, s: ItemStack): ItemStack {
    AddTo(reg, EMPTY_STACK, s).slot
  }

  datatype ListPair = ListPair(src: seq<ItemStack>, dst: seq<ItemStack>)

  /** An endless source: what was displaced is put aside and the source stack restored. */
  function Refill(reg: Registry, l: ListPair, i: nat, fromWas: ItemStack, toWas: ItemStack, moved: bool, caused: bool,
                  same: bool): (r: ListPair)
    requires i < |l.src| && (same ==> l.dst == l.src)
    ensures |r.src| == |l.src| && |r.dst| == |l.dst| && (same ==> r.dst == r.src)
  {
    var dst := if !caused && fromWas.name != toWas.name then PutAside(l.dst, 0, toWas) else l.dst;
    var src := if same then dst else l.src;
    var src' := if moved then src[i := Restored(reg, fromWas)] else src;
    ListPair(src', if same then src' else dst)
  }

  /** An endless destination: its stack is restored and the source loses `count` items. */
  function Reset(reg: Registry, l: ListPair, i: nat, j: nat, fromWas: ItemStack, toWas: ItemStack, count: nat,
                 same: bool): (r: ListPair)
    requires i < |l.src| && j < |l.dst| && (same ==> l.dst == l.src)
    ensures |r.src| == |l.src| && |r.dst| == |l.dst| && (same ==> r.dst == r.src)
  {
    var dst := l.dst[j := Restored(reg, toWas)];
    var src := (if same then dst else l.src)[i := Take(Restored(reg, fromWas), count).rest];
    ListPair(src, if same then src else dst)
  }

  predicate Attempted(src: seq<ItemStack>, i: int, dst: seq<ItemStack>, j: int, same: bool) {
    0 <= i < |src| && 0 <= j < |dst| && !(same && i == j)
  }

  /** The lists after the move and, if the source is endless, after restoring it. */
  function AfterRefill(reg: Registry, src: seq<ItemStack>, i: nat, dst: seq<ItemStack>, j: nat, same: bool,
                       caused: bool, n: U16, swap: bool, take: int): (l: ListPair)
    requires Attempted(src, i, dst, j, same) && (same ==> dst == src)
    ensures |l.src| == |src| && |l.dst| == |dst| && (same ==> l.dst == l.src)
  {
    var r := MoveInLists(reg, src, i, dst, j, n, swap, same);
    var l := ListPair(r.src, r.dst);
    if take == -1 then Refill(reg, l, i, src[i], dst[j], r.moved > 0 || r.swapped, caused, same) else l
  }

  /** The actual move of `n` items, and what follows it for unlimited sources and destinations. */
  function Perform(reg: Registry, src: seq<ItemStack>, i: nat, dst: seq<ItemStack>, j: nat, same: bool, caused: bool,
                   n: U16, after: U16, swap: bool, take: int, put: int): (e: Effect)
    requires i < |src| && j < |dst| && (same ==> dst == src && i != j)
  {
    var l1 := AfterRefill(reg, src, i, dst, j, same, caused, n, swap, take);
    var l2 := if put == -1 then Reset(reg, l1, i, j, src[i], dst[j], after, same) else l1;
    Effect(l2.src, l2.dst, after, MoveInLists(reg, src, i, dst, j, n, swap, same).moved)
  }

  function Apply(reg: Registry, src: seq<ItemStack>, i: int, dst: seq<ItemStack>, j: int, same: bool,
                 sameInv: bool, caused: bool, count: U16, moveCount: int, a: Answers): Effect
    requires AtLeastMinusOne(a) && (same ==> dst == src)
  {
    if !Attempted(src, i, dst, j, same) then Effect(src, dst, count, moveCount)
    else
      match Judge(reg, src[i], dst[j], count, caused, sameInv, a)
      case SourceEmpty => Effect(src, dst, count, moveCount)
      case NothingFits => Effect(src, dst, count, 0)
      case Proceed(n, swap, take, put, fitting) =>
        if n == 0 then Effect(src, dst, 0, if caused then 0 else fitting)
        else Perform(reg, src, i, dst, j, same, caused, n, if caused then count else n, swap, take, put)
  }

  lemma MovedSomethingOrSame(reg: Registry, s: ItemStack, d: ItemStack, count: U16, n: U16, caused: bool)
    requires WellFormed(s) && WellFormed(d) && 0 < n <= Asked(s, count).count && !WantsSwap(reg, s, d, count, caused)
    requires caused ==> RestCount(reg, s, d, count) < Asked(s, count).count
    ensures var m := MoveSlots(reg, s, Some(d), n, false);
            && m.dst == Some(AddTo(reg, d, s.(count := n)).slot) && m.moved > 0 && !m.swapped
            && (d.name != s.name ==> d == EMPTY_STACK)
  {
  }

  /** It is put into the first empty slot, or nowhere. */
  lemma {:induction false} PutAsideFirst(items: seq<ItemStack>, i: nat, k: nat, s: ItemStack)
    requires i <= k <= |items| && forall j :: i <= j < k ==> !items[j].Empty()
    requires k < |items| ==> items[k].Empty()
    ensures PutAside(items, i, s) == if k < |items| then items[k := s] else items
    decreases k - i
  {
    if i < k {
      PutAsideFirst(items, i + 1, k, s);
    }
  }

  lemma {:induction false} PutAsideNothing(items: seq<ItemStack>, i: nat)
    requires i <= |items| && AllWellFormed(items)
    ensures PutAside(items, i, EMPTY_STACK) == items
    decreases |items| - i
  {
    if i < |items| {
      if items[i].Empty() {
        assert items[i := EMPTY_STACK] == items;
      } else {
        PutAsideNothing(items, i + 1);
      }
    }
  }

  /** Which of two stacks a slot holds makes no difference to putting aside in another slot. */
  lemma {:induction false} PutAsideElsewhere(items: seq<ItemStack>, k: nat, i: nat, a: ItemStack, b: ItemStack,
                                             s: ItemStack)
    requires i < |items| && k <= |items| && !a.Empty() && !b.Empty()
    ensures PutAside(items[i := a], k, s)[i := b] == PutAside(items[i := b], k, s)
    decreases |items| - k
  {
    if k < |items| {
      if items[i := a][k].Empty() {
        assert items[i := a][k := s][i := b] == items[i := b][k := s];
      } else {
        PutAsideElsewhere(items, k + 1, i, a, b, s);
      }
    }
  }

  /** A stack of which `n` items have been taken and put back; the same one, unless it was oversized. */
  function GivenBack(reg: Registry, s: ItemStack, n: U16): ItemStack {
    AddTo(reg, TakeUpTo(s, n).rest, TakeUpTo(s, n).item).slot
  }

  /** Exchanged slots are both occupied, by stacks of which no part joins the other. */
  lemma SwapExchanges(reg: Registry, s: ItemStack, d: ItemStack, count: U16, n: U16)
    requires WellFormed(s) && WellFormed(d) && WantsSwap(reg, s, d, count, false) && 0 < n <= s.count
    ensures !s.Empty() && !d.Empty() && !GivenBack(reg, s, n).Empty()
    ensures var m := MoveSlots(reg, s, Some(d), n, true);
            m.src == d && m.dst == Some(GivenBack(reg, s, n)) && m.swapped
  {
    NothingOfItFits(reg, s, d, count, n);
  }

  /** The move proper, within one list or between two, as slots changing. */
  lemma MoveAsSlots(reg: Registry, src: seq<ItemStack>, i: nat, dst: seq<ItemStack>, j: nat, same: bool, n: U16,
                    swap: bool)
    requires Attempted(src, i, dst, j, same) && (same ==> dst == src)
    ensures var m, r := MoveSlots(reg, src[i], Some(dst[j]), n, swap), MoveInLists(reg, src, i, dst, j, n, swap, same);
            && m.dst.Some? && r.moved == m.moved && r.swapped == m.swapped
            && r.dst == (if same then src[i := m.src] else dst)[j := m.dst.value]
            && r.src == if same then r.dst else src[i := m.src]
  {
  }

  /** In one list, the source slot too held a stack before and after the exchange. */
  lemma AsideInOneList(items: seq<ItemStack>, i: nat, j: nat, g: ItemStack)
    requires i < |items| && j < |items| && i != j && !items[i].Empty() && !items[j].Empty() && !g.Empty()
    ensures PutAside(items[i := items[j]][j := g], 0, items[j])[i := items[i]] == PutAside(items[j := g], 0, items[j])
  {
    var now := items[j := g];
    PutAsideElsewhere(now, 0, i, items[j], items[i], items[j]);
    assert now[i := items[j]] == items[i := items[j]][j := g] && now[i := items[i]] == now;
  }

  /**
   What the destination slot receives from an endless source; a stack exchanged for it goes
   to the first empty slot, or is gone.
   */
  function Received(reg: Registry, dst: seq<ItemStack>, j: nat, s: ItemStack, n: U16, swap: bool): (r: seq<ItemStack>)
    requires j < |dst|
    ensures |r| == |dst|
  {
    if !swap then dst[j := AddTo(reg, dst[j], s.(count := n)).slot]
    else if s.name != dst[j].name then PutAside(dst[j := GivenBack(reg, s, n)], 0, dst[j])
    else dst[j := GivenBack(reg, s, n)]
  }

  lemma RefillAfterSwap(reg: Registry, src: seq<ItemStack>, i: nat, dst: seq<ItemStack>, j: nat, same: bool, count: U16,
                        n: U16)
    requires AllWellFormed(src) && AllWellFormed(dst) && (same ==> dst == src) && Attempted(src, i, dst, j, same)
    requires 0 < n <= src[i].count && WantsSwap(reg, src[i], dst[j], count, false)
    ensures var l, dst' := AfterRefill(reg, src, i, dst, j, same, false, n, true, -1),
                           Received(reg, dst, j, src[i], n, true);
            l.dst == dst' && l.src == if same then dst' else src
  {
    var s, d := src[i], dst[j];
    MoveAsSlots(reg, src, i, dst, j, same, n, true);
    SwapExchanges(reg, s, d, count, n);
    assert src[i := s] == src;
    if same {
      AsideInOneList(src, i, j, GivenBack(reg, s, n));
    }
  }

  lemma RefillAfterMove(reg: Registry, src: seq<ItemStack>, i: nat, dst: seq<ItemStack>, j: nat, same: bool,
                        caused: bool, count: U16, n: U16)
    requires AllWellFormed(src) && AllWellFormed(dst) && (same ==> dst == src) && Attempted(src, i, dst, j, same)
    requires 0 < n <= Asked(src[i], count).count && !WantsSwap(reg, src[i], dst[j], count, caused)
    requires caused ==> RestCount(reg, src[i], dst[j], count) < Asked(src[i], count).count
    ensures var l, dst' := AfterRefill(reg, src, i, dst, j, same, caused, n, false, -1),
                           Received(reg, dst, j, src[i], n, false);
            l.dst == dst' && l.src == if same then dst' else src
  {
    MoveAsSlots(reg, src, i, dst, j, same, n, false);
    MovedSomethingOrSame(reg, src[i], dst[j], count, n, caused);
    MoveKeepsForm(reg, src, i, dst, j, n, false, same);
    PutAsideNothing(MoveInLists(reg, src, i, dst, j, n, false, same).dst, 0);
    assert src[i := src[i]] == src;
  }

  /** An endless source keeps its stack. */
  lemma EndlessSource(reg: Registry, src: seq<ItemStack>, i: int, dst: seq<ItemStack>, j: int, same: bool,
                      sameInv: bool,
                      caused: bool, count: U16, moveCount: int, a: Answers)
    requires AtLeastMinusOne(a) && AllWellFormed(src) && AllWellFormed(dst) && (same ==> dst == src)
    requires Attempted(src, i, dst, j, same)
    requires var v := Judge(reg, src[i], dst[j], count, caused, sameInv, a);
             v.Proceed? && v.count > 0 && v.take == -1 && v.put != -1
    ensures var v := Judge(reg, src[i], dst[j], count, caused, sameInv, a);
            var e := Apply(reg, src, i, dst, j, same, sameInv, caused, count, moveCount, a);
            && e.dst == Received(reg, dst, j, src[i], v.count, v.allowSwap)
            && e.src == if same then e.dst else src
  {
    var v := Judge(reg, src[i], dst[j], count, caused, sameInv, a);
    if v.allowSwap {
      RefillAfterSwap(reg, src, i, dst, j, same, count, v.count);
    } else {
      RefillAfterMove(reg, src, i, dst, j, same, caused, count, v.count);
    }
  }

  /** The lists are the expected ones but for the destination slot, and the source slot maybe. */
  ghost predicate ReadyToReset(l: ListPair, src: seq<ItemStack>, i: nat, aside: seq<ItemStack>, j: nat, d: ItemStack,
                               same: bool)
  {
    && i < |src| == |l.src| && j < |aside| == |l.dst| && (same ==> l.dst == l.src && |aside| == |src|)
    && (if same then l.dst[j := d][i := src[i]] == aside else l.dst[j := d] == aside && l.src[i := src[i]] == src)
  }

  lemma ResetGives(reg: Registry, l: ListPair, src: seq<ItemStack>, i: nat, aside: seq<ItemStack>, j: nat, d: ItemStack,
                   after: nat, same: bool)
    requires ReadyToReset(l, src, i, aside, j, d, same) && WellFormed(src[i]) && WellFormed(d)
    ensures var l' := Reset(reg, l, i, j, src[i], d, after, same);
            && l'.src == (if same then aside else src)[i := Take(src[i], after).rest]
            && l'.dst == if same then l'.src else aside
  {
    assert Restored(reg, d) == d && Restored(reg, src[i]) == src[i];
    var s, rest := src[i], Take(src[i], after).rest;
    if same {
      assert l.dst[j := d][i := s][i := rest] == l.dst[j := d][i := rest];
    } else {
      assert l.src[i := s][i := rest] == l.src[i := rest];
    }
  }

  lemma MoveReady(reg: Registry, src: seq<ItemStack>, i: nat, dst: seq<ItemStack>, j: nat, same: bool, n: U16,
                  swap: bool)
    requires Attempted(src, i, dst, j, same) && (same ==> dst == src)
    ensures var r := MoveInLists(reg, src, i, dst, j, n, swap, same);
            ReadyToReset(ListPair(r.src, r.dst), src, i, dst, j, dst[j], same)
  {
    MoveAsSlots(reg, src, i, dst, j, same, n, swap);
    assert dst[j := dst[j]] == dst && src[i := src[i]] == src;
    var m := MoveSlots(reg, src[i], Some(dst[j]), n, swap);
    if same {
      assert src[i := m.src][j := m.dst.value][j := dst[j]][i := src[i]] == src;
    } else {
      assert dst[j := m.dst.value][j := dst[j]] == dst;
      assert src[i := m.src][i := src[i]] == src;
    }
  }

  lemma SwapReady(reg: Registry, src: seq<ItemStack>, i: nat, dst: seq<ItemStack>, j: nat, same: bool, count: U16,
                  n: U16)
    requires AllWellFormed(src) && AllWellFormed(dst) && (same ==> dst == src) && Attempted(src, i, dst, j, same)
    requires 0 < n <= src[i].count && WantsSwap(reg, src[i], dst[j], count, false)
    ensures ReadyToReset(AfterRefill(reg, src, i, dst, j, same, false, n, true, -1), src, i,
                         if src[i].name != dst[j].name then PutAside(dst, 0, dst[j]) else dst, j, dst[j], same)
  {
    var s, d, g := src[i], dst[j], GivenBack(reg, src[i], n);
    RefillAfterSwap(reg, src, i, dst, j, same, count, n);
    SwapExchanges(reg, s, d, count, n);
    PutAsideElsewhere(dst, 0, j, g, d, d);
    assert dst[j := d] == dst && dst[j := g][j := d] == dst && src[i := s] == src;
    if same {
      PutAsideElsewhere(dst, 0, i, s, s, d);
    }
  }

  lemma RefilledReady(reg: Registry, src: seq<ItemStack>, i: nat, dst: seq<ItemStack>, j: nat, same: bool,
                      caused: bool, count: U16, n: U16)
    requires AllWellFormed(src) && AllWellFormed(dst) && (same ==> dst == src) && Attempted(src, i, dst, j, same)
    requires 0 < n <= Asked(src[i], count).count && !WantsSwap(reg, src[i], dst[j], count, caused)
    requires caused ==> RestCount(reg, src[i], dst[j], count) < Asked(src[i], count).count
    ensures ReadyToReset(AfterRefill(reg, src, i, dst, j, same, caused, n, false, -1), src, i, dst, j, dst[j], same)
  {
    RefillAfterMove(reg, src, i, dst, j, same, caused, count, n);
    assert Received(reg, dst, j, src[i], n, false)[j := dst[j]] == dst;
    assert src[i := src[i]] == src;
  }

  /**
   An endless destination keeps its stack, and the source loses the full count: within one
   inventory too, where the items are then gone.  Only a stack exchanged with an endless
   source comes to lie in the first empty slot as well.
   */
  lemma EndlessDestination(reg: Registry, src: seq<ItemStack>, i: int, dst: seq<ItemStack>, j: int, same: bool,
                           sameInv: bool,
                           caused: bool, count: U16, moveCount: int, a: Answers)
    requires AtLeastMinusOne(a) && AllWellFormed(src) && AllWellFormed(dst) && (same ==> dst == src)
    requires Attempted(src, i, dst, j, same)
    requires var v := Judge(reg, src[i], dst[j], count, caused, sameInv, a); v.Proceed? && v.count > 0 && v.put == -1
    ensures var v := Judge(reg, src[i], dst[j], count, caused, sameInv, a);
            var e := Apply(reg, src, i, dst, j, same, sameInv, caused, count, moveCount, a);
            var aside := if v.take == -1 && v.allowSwap && src[i].name != dst[j].name then PutAside(dst, 0, dst[j])
                         else dst;
            && e.src == (if same then aside else src)[i := Take(src[i], if caused then count else v.count).rest]
            && e.dst == if same then e.src else aside
  {
    var v := Judge(reg, src[i], dst[j], count, caused, sameInv, a);
    var l := AfterRefill(reg, src, i, dst, j, same, caused, v.count, v.allowSwap, v.take);
    if v.take != -1 {
      MoveReady(reg, src, i, dst, j, same, v.count, v.allowSwap);
    } else if v.allowSwap {
      SwapReady(reg, src, i, dst, j, same, count, v.count);
    } else {
      RefilledReady(reg, src, i, dst, j, same, caused, count, v.count);
    }
    var aside := if v.take == -1 && v.allowSwap && src[i].name != dst[j].name then PutAside(dst, 0, dst[j]) else dst;
    ResetGives(reg, l, src, i, aside, j, dst[j], if caused then count else v.count, same);
  }

  // ----- Form -----

  lemma {:induction false} PutAsideKeepsForm(items: seq<ItemStack>, i: nat, s: ItemStack)
    requires i <= |items| && AllWellFormed(items) && WellFormed(s)
    ensures AllWellFormed(PutAside(items, i, s))
    decreases |items| - i
  {
    if i < |items| && !items[i].Empty() {
      PutAsideKeepsForm(items, i + 1, s);
    }
  }

  lemma RefillKeepsForm(reg: Registry, l: ListPair, i: nat, fromWas: ItemStack, toWas: ItemStack, moved: bool,
                        caused: bool, same: bool)
    requires i < |l.src| && (same ==> l.dst == l.src) && AllWellFormed(l.src) && AllWellFormed(l.dst)
    requires WellFormed(fromWas) && WellFormed(toWas)
    ensures var r := Refill(reg, l, i, fromWas, toWas, moved, caused, same);
            AllWellFormed(r.src) && AllWellFormed(r.dst)
  {
    PutAsideKeepsForm(l.dst, 0, toWas);
  }

  lemma ResetKeepsForm(reg: Registry, l: ListPair, i: nat, j: nat, fromWas: ItemStack, toWas: ItemStack, count: nat,
                       same: bool)
    requires i < |l.src| && j < |l.dst| && (same ==> l.dst == l.src) && AllWellFormed(l.src) && AllWellFormed(l.dst)
    requires WellFormed(fromWas) && WellFormed(toWas)
    ensures var r := Reset(reg, l, i, j, fromWas, toWas, count, same); AllWellFormed(r.src) && AllWellFormed(r.dst)
  {
  }

  lemma SlotsKeepForm(reg: Registry, s: ItemStack, d: Option<ItemStack>, count: nat, swap: bool)
    requires WellFormed(s) && (d.Some? ==> WellFormed(d.value))
    ensures var r := MoveSlots(reg, s, d, count, swap);
            WellFormed(r.src) && (r.dst.Some? ==> WellFormed(r.dst.value)) && r.moved >= 0
  {
  }

  lemma MoveKeepsForm(reg: Registry, src: seq<ItemStack>, i: nat, dst: seq<ItemStack>, j: nat, count: nat, swap: bool,
                      same: bool)
    requires AllWellFormed(src) && AllWellFormed(dst) && (same ==> dst == src)
    ensures var r := MoveInLists(reg, src, i, dst, j, count, swap, same);
            AllWellFormed(r.src) && AllWellFormed(r.dst) && r.moved >= 0
  {
    if i < |src| && !(same && i == j) {
      SlotsKeepForm(reg, src[i], SlotAt(dst, j), count, swap);
    }
  }

  lemma AfterRefillKeepsForm(reg: Registry, src: seq<ItemStack>, i: nat, dst: seq<ItemStack>, j: nat, same: bool,
                             caused: bool, n: U16, swap: bool, take: int)
    requires Attempted(src, i, dst, j, same) && (same ==> dst == src) && AllWellFormed(src) && AllWellFormed(dst)
    ensures var l := AfterRefill(reg, src, i, dst, j, same, caused, n, swap, take);
            AllWellFormed(l.src) && AllWellFormed(l.dst)
  {
    var r := MoveInLists(reg, src, i, dst, j, n, swap, same);
    MoveKeepsForm(reg, src, i, dst, j, n, swap, same);
    RefillKeepsForm(reg, ListPair(r.src, r.dst), i, src[i], dst[j], r.moved > 0 || r.swapped, caused, same);
  }

  lemma PerformKeepsForm(reg: Registry, src: seq<ItemStack>, i: nat, dst: seq<ItemStack>, j: nat, same: bool,
                         caused: bool,
                         n: U16, after: U16, swap: bool, take: int, put: int)
    requires Attempted(src, i, dst, j, same) && (same ==> dst == src) && AllWellFormed(src) && AllWellFormed(dst)
    ensures var e := Perform(reg, src, i, dst, j, same, caused, n, after, swap, take, put);
            && AllWellFormed(e.src) && AllWellFormed(e.dst) && |e.src| == |src| && |e.dst| == |dst|
            && (same ==> e.src == e.dst) && e.moveCount >= 0
  {
    MoveKeepsForm(reg, src, i, dst, j, n, swap, same);
    AfterRefillKeepsForm(reg, src, i, dst, j, same, caused, n, swap, take);
    ResetKeepsForm(reg, AfterRefill(reg, src, i, dst, j, same, caused, n, swap, take), i, j, src[i], dst[j], after,
                   same);
  }

  /** Whatever is answered, even "unlimited": lists keep their sizes and hold proper stacks. */
  lemma ApplyKeepsForm(reg: Registry, src: seq<ItemStack>, i: int, dst: seq<ItemStack>, j: int, same: bool,
                       sameInv: bool, caused: bool, count: U16, moveCount: int, a: Answers)
    requires AtLeastMinusOne(a) && (same ==> dst == src) && AllWellFormed(src) && AllWellFormed(dst)
    ensures var e := Apply(reg, src, i, dst, j, same, sameInv, caused, count, moveCount, a);
            && AllWellFormed(e.src) && AllWellFormed(e.dst) && |e.src| == |src| && |e.dst| == |dst|
            && (same ==> e.src == e.dst) && (moveCount >= 0 ==> e.moveCount >= 0)
  {
    if Attempted(src, i, dst, j, same) {
      var v := Judge(reg, src[i], dst[j], count, caused, sameInv, a);
      if v.Proceed? && v.count > 0 {
        PerformKeepsForm(reg, src, i, dst, j, same, caused, v.count, if caused then count else v.count, v.allowSwap,
                         v.take, v.put);
      }
    }
  }

  // ----- Conservation -----

  lemma LimitedAnswers(reg: Registry, s: ItemStack, d: ItemStack, count: U16, caused: bool, sameInv: bool, a: Answers)
    requires NonNegative(a)
    ensures var v := Judge(reg, s, d, count, caused, sameInv, a); v.Proceed? ==> v.take != -1 && v.put != -1
  {
  }

  /** Without "unlimited" answers the move itself is all that happens. */
  lemma LimitedApply(reg: Registry, src: seq<ItemStack>, i: int, dst: seq<ItemStack>, j: int, same: bool,
                     sameInv: bool, caused: bool, count: U16, moveCount: int, a: Answers)
    requires NonNegative(a) && (same ==> dst == src) && Attempted(src, i, dst, j, same)
    ensures var v := Judge(reg, src[i], dst[j], count, caused, sameInv, a);
            var e := Apply(reg, src, i, dst, j, same, sameInv, caused, count, moveCount, a);
            if v.Proceed? && v.count > 0 then
              var r := MoveInLists(reg, src, i, dst, j, v.count, v.allowSwap, same); e.src == r.src && e.dst == r.dst
            else e.src == src && e.dst == dst
  {
    LimitedAnswers(reg, src[i], dst[j], count, caused, sameInv, a);
  }

  /** The move that is carried out takes part of an oversized stack that has no room on the way back. */
  predicate ApplyOverflows(reg: Registry, src: seq<ItemStack>, i: int, dst: seq<ItemStack>, j: int, same: bool,
                           sameInv: bool, caused: bool, count: U16, a: Answers)
    requires AtLeastMinusOne(a)
  {
    && Attempted(src, i, dst, j, same)
    && var v := Judge(reg, src[i], dst[j], count, caused, sameInv, a);
       v.Proceed? && PutBackOverflows(reg, src[i], Some(dst[j]), v.count)
  }

  /** No kind of item has become more over the two lists, which may be one. */
  ghost predicate NoGain(src0: seq<ItemStack>, src1: seq<ItemStack>, same: bool, dst0: seq<ItemStack>,
                         dst1: seq<ItemStack>)
  {
    forall key :: Both(src1, dst1, same, key) <= Both(src0, dst0, same, key)
  }

  lemma MoveTotalsIff(reg: Registry, src: seq<ItemStack>, i: nat, dst: seq<ItemStack>, j: nat, n: U16, swap: bool,
                      same: bool)
    requires AllWellFormed(src) && AllWellFormed(dst) && (same ==> dst == src) && Attempted(src, i, dst, j, same)
    ensures var r, lost := MoveInLists(reg, src, i, dst, j, n, swap, same),
                           PutBackOverflows(reg, src[i], Some(dst[j]), n);
            && (SameTotals(src, r.src, same, dst, r.dst) <==> !lost)
            && (lost ==> Both(r.src, r.dst, same, KeyOf(src[i])) < Both(src, dst, same, KeyOf(src[i])))
            && NoGain(src, r.src, same, dst, r.dst)
  {
    forall key { MoveChangesTotals(reg, src, i, dst, j, n, swap, same, key); }
    MoveChangesTotals(reg, src, i, dst, j, n, swap, same, KeyOf(src[i]));
    if !PutBackOverflows(reg, src[i], Some(dst[j]), n) {
      MoveKeepsTotals(reg, src, i, dst, j, n, swap, same);
    }
  }

  /**
   Whatever the callbacks answer, as long as it is not "unlimited": one applied move keeps
   the total of every kind of item unless it overflows; then items are lost.
   */
  lemma ApplyConservesIff(reg: Registry, src: seq<ItemStack>, i: int, dst: seq<ItemStack>, j: int, same: bool,
                          sameInv: bool, caused: bool, count: U16, moveCount: int, a: Answers)
    requires NonNegative(a) && AllWellFormed(src) && AllWellFormed(dst) && (same ==> dst == src)
    ensures var e := Apply(reg, src, i, dst, j, same, sameInv, caused, count, moveCount, a);
            var lost := ApplyOverflows(reg, src, i, dst, j, same, sameInv, caused, count, a);
            && (SameTotals(src, e.src, same, dst, e.dst) <==> !lost)
            && (lost ==> Both(e.src, e.dst, same, KeyOf(src[i])) < Both(src, dst, same, KeyOf(src[i])))
            && NoGain(src, e.src, same, dst, e.dst)
            && AllWellFormed(e.src) && AllWellFormed(e.dst)
  {
    ApplyKeepsForm(reg, src, i, dst, j, same, sameInv, caused, count, moveCount, a);
    if Attempted(src, i, dst, j, same) {
      LimitedApply(reg, src, i, dst, j, same, sameInv, caused, count, moveCount, a);
      var v := Judge(reg, src[i], dst[j], count, caused, sameInv, a);
      if v.Proceed? && v.count > 0 {
        MoveTotalsIff(reg, src, i, dst, j, v.count, v.allowSwap, same);
      }
    }
  }

  /** So a stack within its limit is always safe. */
  lemma ApplyConserves(reg: Registry, src: seq<ItemStack>, i: int, dst: seq<ItemStack>, j: int, same: bool,
                       sameInv: bool, caused: bool, count: U16, moveCount: int, a: Answers)
    requires NonNegative(a) && AllWellFormed(src) && AllWellFormed(dst) && (same ==> dst == src)
    requires 0 <= i < |src| ==> src[i].count <= reg.Get(src[i].name).stackMax
    ensures var e := Apply(reg, src, i, dst, j, same, sameInv, caused, count, moveCount, a);
            SameTotals(src, e.src, same, dst, e.dst) && AllWellFormed(e.src) && AllWellFormed(e.dst)
  {
    ApplyConservesIff(reg, src, i, dst, j, same, sameInv, caused, count, moveCount, a);
  }

  /**
   Within one inventory one callback answers for both ends.  If it answers -1 and nothing
   has to be exchanged, the destination is left as it was and what was moved is gone.
   */
  lemma UnlimitedWithinDestroys(reg: Registry, src: seq<ItemStack>, i: int, dst: seq<ItemStack>, j: int, same: bool,
                                count: U16, moveCount: int, a: Answers)
    requires AtLeastMinusOne(a) && AllWellFormed(src) && AllWellFormed(dst) && (same ==> dst == src)
    requires Attempted(src, i, dst, j, same) && !src[i].Empty()
    requires a.take == -1 && !WantsSwap(reg, src[i], dst[j], count, false)
    ensures var e, n := Apply(reg, src, i, dst, j, same, true, false, count, moveCount, a), Asked(src[i], count).count;
            && n > 0 && e.src == src[i := Take(src[i], n).rest] && e.dst == (if same then e.src else dst)
            && Both(e.src, e.dst, same, KeyOf(src[i])) == Both(src, dst, same, KeyOf(src[i])) - n
  {
    var n := Asked(src[i], count).count;
    EndlessDestination(reg, src, i, dst, j, same, true, false, count, moveCount, a);
    TakeConserves(src[i], n, KeyOf(src[i]));
    TotalUpdate(src, i, Take(src[i], n).rest, KeyOf(src[i]));
  }

  // ----- Client prediction of a move between two slots -----

  /** A 16-bit index as the unsigned number it is converted to: negative ones are out of range. */
  function Unsigned(i: int): nat
    requires -0x8000 <= i < 0x8000
  {
    if i >= 0 then i else i + 0x1_0000_0000
  }

  /** The case in which the client drops items the server keeps. */
  predicate PredictionLoses(reg: Registry, src: seq<ItemStack>, i: nat, dst: seq<ItemStack>, j: nat, same: bool,
                            count: U16)
  {
    && i < |src| && !(same && i == j)
    && PutBackOverflows(reg, src[i], SlotAt(dst, j), count)
    && Acceptable(reg, src[i], SlotAt(dst, j), count) == 0
  }

  lemma PermissiveVerdict(reg: Registry, s: ItemStack, d: ItemStack, count: U16, sameInv: bool, a: Answers)
    requires Permissive(a) && !s.Empty()
    ensures var wants := WantsSwap(reg, s, d, count, false);
            var v := Judge(reg, s, d, count, false, sameInv, a);
            v.Proceed? && v.allowSwap == wants && v.count == (if wants then s else Asked(s, count)).count
  {
  }

  lemma PermissiveApply(reg: Registry, src: seq<ItemStack>, i: int, dst: seq<ItemStack>, j: int, same: bool,
                        sameInv: bool, count: U16, moveCount: int, a: Answers)
    requires Permissive(a) && (same ==> dst == src)
    requires Attempted(src, i, dst, j, same) && !src[i].Empty()
    ensures var wants := WantsSwap(reg, src[i], dst[j], count, false);
            var n := (if wants then src[i] else Asked(src[i], count)).count;
            var e := Apply(reg, src, i, dst, j, same, sameInv, false, count, moveCount, a);
            var r := MoveInLists(reg, src, i, dst, j, n, wants, same);
            e.src == r.src && e.dst == r.dst
  {
    PermissiveVerdict(reg, src[i], dst[j], count, sameInv, a);
  }

  /** In range, client and server agree on the two slots unless the client drops items. */
  lemma SlotsAgree(reg: Registry, s: ItemStack, d: ItemStack, count: U16)
    requires WellFormed(s) && WellFormed(d) && !s.Empty()
    ensures var wants := WantsSwap(reg, s, d, count, false);
            var server := MoveSlots(reg, s, Some(d), (if wants then s else Asked(s, count)).count, wants);
            var client := MoveSlots(reg, s, Some(d), count, true);
            (server.src == client.src && server.dst == client.dst)
            <==> !(PutBackOverflows(reg, s, Some(d), count) && Acceptable(reg, s, Some(d), count) == 0)
  {
  }

  /** The client's own move, made with the same action fields. */
  function Predicted(reg: Registry, src: seq<ItemStack>, i: int, dst: seq<ItemStack>, j: int, same: bool,
                     count: U16): MoveOutcome
    requires -0x8000 <= i < 0x8000 && -0x8000 <= j < 0x8000
  {
    MoveInLists(reg, src, Unsigned(i), dst, Unsigned(j), count, true, same)
  }

  lemma OutOfRangeAgrees(reg: Registry, src: seq<ItemStack>, i: nat, count: U16)
    requires i < |src| && AllWellFormed(src)
    ensures MoveSlots(reg, src[i], None, count, true).src == src[i] <==> !(PutBackOverflows(reg, src[i], None, count))
  {
  }

  lemma SlotsDetermineLists(src: seq<ItemStack>, i: nat, dst: seq<ItemStack>, j: nat, same: bool, a: Moved, b: Moved)
    requires i < |src| && j < |dst| && (same ==> dst == src && i != j)
    requires a.dst.Some? && b.dst.Some?
    ensures src[i := a.src] == src[i := b.src] <==> a.src == b.src
    ensures Placed(dst, j, a.dst) == Placed(dst, j, b.dst) <==> a.dst == b.dst
    ensures same ==>
              (Placed(src[i := a.src], j, a.dst) == Placed(src[i := b.src], j, b.dst)
               <==> a.src == b.src && a.dst == b.dst)
  {
    assert src[i := a.src][i] == a.src && src[i := b.src][i] == b.src;
    assert Placed(dst, j, a.dst)[j] == a.dst.value && Placed(dst, j, b.dst)[j] == b.dst.value;
    if same {
      var x, y := Placed(src[i := a.src], j, a.dst), Placed(src[i := b.src], j, b.dst);
      assert x[i] == a.src && y[i] == b.src && x[j] == a.dst.value && y[j] == b.dst.value;
    }
  }

  /**
   From equal lists, and with callbacks that permit everything, the client's prediction and
   the server end with equal lists; the one exception is part of an oversized stack offered
   to a place that accepts none of it.
   */
  lemma PredictionAgrees(reg: Registry, src: seq<ItemStack>, i: int, dst: seq<ItemStack>, j: int, same: bool,
                         sameInv: bool, count: U16, moveCount: int, a: Answers)
    requires Permissive(a) && AllWellFormed(src) && AllWellFormed(dst) && (same ==> dst == src)
    requires -0x8000 <= i < 0x8000 && -0x8000 <= j < 0x8000 && |src| <= 0xFFFF_0000 && |dst| <= 0xFFFF_0000
    ensures var server := Apply(reg, src, i, dst, j, same, sameInv, false, count, moveCount, a);
            var client := Predicted(reg, src, i, dst, j, same, count);
            (server.src == client.src && server.dst == client.dst)
            <==> !PredictionLoses(reg, src, Unsigned(i), dst, Unsigned(j), same, count)
  {
    if i < 0 || i >= |src| || (same && i == j) {
    } else if j < 0 || j >= |dst| {
      OutOfRangeAgrees(reg, src, i, count);
      assert src[i := src[i]] == src;
    } else if src[i].Empty() {
      assert src[i := src[i]] == src;
    } else {
      InRangeAgrees(reg, src, i, dst, j, same, sameInv, count, moveCount, a);
    }
  }

  lemma InRangeAgrees(reg: Registry, src: seq<ItemStack>, i: nat, dst: seq<ItemStack>, j: nat, same: bool,
                      sameInv: bool, count: U16, moveCount: int, a: Answers)
    requires Permissive(a) && AllWellFormed(src) && AllWellFormed(dst) && (same ==> dst == src)
    requires Attempted(src, i, dst, j, same) && !src[i].Empty()
    ensures var server := Apply(reg, src, i, dst, j, same, sameInv, false, count, moveCount, a);
            var client := MoveInLists(reg, src, i, dst, j, count, true, same);
            (server.src == client.src && server.dst == client.dst)
            <==> !PredictionLoses(reg, src, i, dst, j, same, count)
  {
    PermissiveApply(reg, src, i, dst, j, same, sameInv, count, moveCount, a);
    SlotsAgree(reg, src[i], dst[j], count);
    var wants := WantsSwap(reg, src[i], dst[j], count, false);
    var n := (if wants then src[i] else Asked(src[i], count)).count;
    SlotsDetermineLists(src, i, dst, j, same, MoveSlots(reg, src[i], Some(dst[j]), n, wants),
                        MoveSlots(reg, src[i], Some(dst[j]), count, true));
  }
}
