/**
 Node timers: slots ordered by deadline, an index by position and a cached earliest deadline,
 in which -1 also stands for "none".  How far they behave like a map of deadlines.
 */
module NodeTimers {
  import opened Common

  datatype NodeTimer = NodeTimer(timeout: real, elapsed: real, position: Pos)

  /** An element of the ordered multimap; `id` is what an iterator to it remembers. */
  datatype Slot = Slot(id: nat, trigger: real, timer: NodeTimer)

  datatype TimerList = TimerList(timers: seq<Slot>, iterators: map<Pos, nat>, next: real, time: real, freshId: nat)

  const NONE := -1.0

  // ----- Finding slots -----

  /** Where a new slot goes: after all slots that are not later. */
  function UpperBound(timers: seq<Slot>, trigger: real): (k: nat)
    ensures k <= |timers|
    ensures k > 0 ==> timers[k - 1].trigger <= trigger
    ensures forall j :: k <= j < |timers| ==> timers[j].trigger > trigger
  {
    if timers == [] || timers[|timers| - 1].trigger <= trigger then |timers|
    else UpperBound(timers[..|timers| - 1], trigger)
  }

  /** How many slots at the front are due. */
  function DueCount(timers: seq<Slot>, time: real): (n: nat)
    ensures n <= |timers|
    ensures forall j :: 0 <= j < n ==> timers[j].trigger <= time
    ensures n < |timers| ==> timers[n].trigger > time
  {
    if timers == [] || timers[0].trigger > time then 0 else DueCount(timers[1..], time) + 1
  }

  predicate HasId(timers: seq<Slot>, k: int, id: nat) {
    0 <= k < |timers| && timers[k].id == id
  }

  /** The slot an iterator leads to, or the end. */
  ghost function IndexOf(timers: seq<Slot>, id: nat): (k: nat)
    ensures k <= |timers|
    ensures k < |timers| <==> exists j :: HasId(timers, j, id)
    ensures k < |timers| ==> timers[k].id == id
  {
    if exists j :: HasId(timers, j, id) then
      var j :| HasId(timers, j, id);
      j
    else |timers|
  }

  // ----- The operations -----

  function Earliest(timers: seq<Slot>): real {
    if timers == [] then NONE else timers[0].trigger
  }

  function Without(timers: seq<Slot>, k: nat): (r: seq<Slot>)
    requires k < |timers|
    ensures |r| == |timers| - 1 && forall j :: 0 <= j < |r| ==> r[j] == timers[if j < k then j else j + 1]
  {
    timers[..k] + timers[k + 1..]
  }

  function With(timers: seq<Slot>, k: nat, s: Slot): (r: seq<Slot>)
    requires k <= |timers|
    ensures |r| == |timers| + 1
            && forall j :: 0 <= j < |r| ==> r[j] == if j < k then timers[j] else if j == k then s else timers[j - 1]
  {
    timers[..k] + [s] + timers[k..]
  }

  ghost function Removed(l: TimerList, p: Pos): TimerList {
    if p !in l.iterators || IndexOf(l.timers, l.iterators[p]) == |l.timers| then l
    else
      var k := IndexOf(l.timers, l.iterators[p]);
      var timers := Without(l.timers, k);
      l.(timers := timers, iterators := l.iterators - {p},
         next := if l.timers[k].trigger == l.next then Earliest(timers) else l.next)
  }

  function TriggerOf(l: TimerList, t: NodeTimer): real {
    l.time + (t.timeout - t.elapsed)
  }

  function Inserted(l: TimerList, t: NodeTimer): TimerList {
    var trigger := TriggerOf(l, t);
    TimerList(With(l.timers, UpperBound(l.timers, trigger), Slot(l.freshId, trigger, t)),
              l.iterators[t.position := l.freshId],
              if l.next == NONE || trigger < l.next then trigger else l.next, l.time, l.freshId + 1)
  }

  /** Deletes the old timer at a position and sets a new one. */
  ghost function Set(l: TimerList, t: NodeTimer): TimerList {
    Inserted(Removed(l, t.position), t)
  }

  function Cleared(l: TimerList): TimerList {
    l.(timers := [], iterators := map[], next := NONE)
  }

  function Expired(s: Slot, time: real): NodeTimer {
    s.timer.(elapsed := s.timer.timeout + (time - s.trigger))
  }

  ghost function Positions(timers: seq<Slot>): set<Pos> {
    set k | 0 <= k < |timers| :: timers[k].timer.position
  }

  /** The list without its first `n` slots. */
  ghost function Dropped(l: TimerList, n: nat, time: real): TimerList
    requires n <= |l.timers|
  {
    TimerList(l.timers[n..], l.iterators - Positions(l.timers[..n]), Earliest(l.timers[n..]), time, l.freshId)
  }

  function FiredTimers(timers: seq<Slot>, n: nat, time: real): (r: seq<NodeTimer>)
    requires n <= |timers|
    ensures |r| == n && forall k :: 0 <= k < n ==> r[k] == Expired(timers[k], time)
  {
    seq(n, k requires 0 <= k < n => Expired(timers[k], time))
  }

  datatype Stepped = Stepped(l: TimerList, fired: seq<NodeTimer>)

  ghost function Step(l: TimerList, dtime: real): Stepped {
    var time := l.time + dtime;
    if l.next == NONE || time < l.next then Stepped(l.(time := time), [])
    else
      var n := DueCount(l.timers, time);
      Stepped(Dropped(l, n, time), FiredTimers(l.timers, n, time))
  }

  // ----- Form -----

  predicate InOrder(timers: seq<Slot>, j: int, k: int) {
    0 <= j < k < |timers| ==> timers[j].trigger <= timers[k].trigger && timers[j].id != timers[k].id
  }

  predicate Indexed(l: TimerList, k: int) {
    0 <= k < |l.timers| ==>
      var s := l.timers[k];
      s.id < l.freshId && s.timer.position in l.iterators && l.iterators[s.timer.position] == s.id
  }

  ghost predicate Pointed(l: TimerList, p: Pos) {
    p in l.iterators ==>
      var k := IndexOf(l.timers, l.iterators[p]);
      k < |l.timers| && l.timers[k].timer.position == p
  }

  /** Slots are in order of deadline and one-to-one with the index by position. */
  ghost predicate Shape(l: TimerList) {
    && (forall j, k {:trigger InOrder(l.timers, j, k)} :: InOrder(l.timers, j, k))
    && (forall k {:trigger Indexed(l, k)} :: Indexed(l, k))
    && (forall p {:trigger Pointed(l, p)} :: Pointed(l, p))
  }

  lemma IndexIs(l: TimerList, k: nat)
    requires Shape(l) && k < |l.timers|
    ensures IndexOf(l.timers, l.timers[k].id) == k
  {
    assert HasId(l.timers, k, l.timers[k].id);
    var j := IndexOf(l.timers, l.timers[k].id);
    assert InOrder(l.timers, j, k) && InOrder(l.timers, k, j);
  }

  // ----- The abstract view -----

  datatype Deadline = Deadline(at: real, timeout: real)

  /** The map the structure stands for: when the timer at a position is due, if there is one. */
  ghost function DeadlineAt(l: TimerList, p: Pos): Option<Deadline> {
    if p in l.iterators && IndexOf(l.timers, l.iterators[p]) < |l.timers| then
      var s := l.timers[IndexOf(l.timers, l.iterators[p])];
      Some(Deadline(s.trigger, s.timer.timeout))
    else None
  }

  lemma SlotHasDeadline(l: TimerList, k: nat)
    requires Shape(l) && k < |l.timers|
    ensures var s := l.timers[k]; DeadlineAt(l, s.timer.position) == Some(Deadline(s.trigger, s.timer.timeout))
  {
    assert Indexed(l, k);
    IndexIs(l, k);
  }

  /** The slot that belongs to a position. */
  lemma SlotOf(l: TimerList, p: Pos) returns (k: nat)
    requires Shape(l) && DeadlineAt(l, p).Some?
    ensures k < |l.timers| && l.timers[k].timer.position == p && k == IndexOf(l.timers, l.iterators[p])
            && l.timers[k].id == l.iterators[p]
  {
    assert Pointed(l, p);
    k := IndexOf(l.timers, l.iterators[p]);
  }

  lemma OneSlotEach(l: TimerList, j: nat, k: nat)
    requires Shape(l) && j < |l.timers| && k < |l.timers| && l.timers[j].timer.position == l.timers[k].timer.position
    ensures j == k
  {
    assert Indexed(l, j) && Indexed(l, k);
    IndexIs(l, j);
    IndexIs(l, k);
  }

  // ----- Removing -----

  lemma RemovedPointed(l: TimerList, p: Pos, q: Pos)
    requires Shape(l) && p in l.iterators && q in l.iterators && q != p
    ensures var l' := Removed(l, p); Pointed(l', q) && DeadlineAt(l', q) == DeadlineAt(l, q)
  {
    assert Pointed(l, p) && Pointed(l, q);
    var l', k, i := Removed(l, p), IndexOf(l.timers, l.iterators[p]), IndexOf(l.timers, l.iterators[q]);
    assert HasId(l'.timers, if i < k then i else i - 1, l.iterators[q]);
    var j := IndexOf(l'.timers, l.iterators[q]);
    IndexIs(l, if j < k then j else j + 1);
  }

  lemma RemovedShape(l: TimerList, p: Pos)
    requires Shape(l)
    ensures Shape(Removed(l, p))
  {
    if p in l.iterators {
      assert Pointed(l, p);
      var l', n := Removed(l, p), IndexOf(l.timers, l.iterators[p]);
      forall j, k ensures InOrder(l'.timers, j, k) {
        assert InOrder(l.timers, if j < n then j else j + 1, if k < n then k else k + 1);
      }
      forall k ensures Indexed(l', k) {
        if 0 <= k < |l'.timers| {
          var i := if k < n then k else k + 1;
          assert Indexed(l, i);
          IndexIs(l, i);
        }
      }
      forall q ensures Pointed(l', q) {
        if q in l'.iterators {
          RemovedPointed(l, p, q);
        }
      }
    }
  }

  /** Removing takes one position out of the map. */
  lemma RemoveRefines(l: TimerList, p: Pos, q: Pos)
    requires Shape(l)
    ensures Shape(Removed(l, p))
    ensures DeadlineAt(Removed(l, p), q) == if q == p then None else DeadlineAt(l, q)
  {
    RemovedShape(l, p);
    assert Pointed(l, p);
    if p in l.iterators && q in l.iterators && q != p {
      RemovedPointed(l, p, q);
    }
  }

  // ----- Inserting -----

  lemma IdsAreOlder(l: TimerList)
    requires Shape(l)
    ensures forall k :: 0 <= k < |l.timers| ==> l.timers[k].id < l.freshId
  {
    forall k | 0 <= k < |l.timers| ensures l.timers[k].id < l.freshId {
      assert Indexed(l, k);
    }
  }

  /** Where an id leads once a slot with a new one has been put in. */
  lemma IndexAfterInsert(l: TimerList, n: nat, s: Slot, i: nat)
    requires Shape(l) && n <= |l.timers| && i < |l.timers| && s.id == l.freshId
    ensures IndexOf(With(l.timers, n, s), l.timers[i].id) == if i < n then i else i + 1
    ensures IndexOf(With(l.timers, n, s), s.id) == n
  {
    IdsAreOlder(l);
    var timers, id := With(l.timers, n, s), l.timers[i].id;
    assert HasId(timers, if i < n then i else i + 1, id) && HasId(timers, n, s.id);
    var j := IndexOf(timers, id);
    assert j != n;
    IndexIs(l, if j < n then j else j - 1);
    IndexIs(l, i);
  }

  lemma InsertedPointed(l: TimerList, t: NodeTimer, q: Pos)
    requires Shape(l) && t.position !in l.iterators && q in l.iterators
    ensures var l' := Inserted(l, t); Pointed(l', q) && DeadlineAt(l', q) == DeadlineAt(l, q)
  {
    assert Pointed(l, q);
    var trigger := TriggerOf(l, t);
    IndexAfterInsert(l, UpperBound(l.timers, trigger), Slot(l.freshId, trigger, t), IndexOf(l.timers, l.iterators[q]));
  }

  lemma InsertedNew(l: TimerList, t: NodeTimer)
    requires Shape(l) && t.position !in l.iterators
    ensures var l' := Inserted(l, t);
            Pointed(l', t.position) && DeadlineAt(l', t.position) == Some(Deadline(TriggerOf(l, t), t.timeout))
  {
    IdsAreOlder(l);
    var l', n := Inserted(l, t), UpperBound(l.timers, TriggerOf(l, t));
    assert HasId(l'.timers, n, l.freshId);
  }

  lemma InsertedInOrder(l: TimerList, t: NodeTimer, j: nat, k: nat)
    requires Shape(l) && j < k < |l.timers| + 1
    ensures InOrder(Inserted(l, t).timers, j, k)
  {
    var n := UpperBound(l.timers, TriggerOf(l, t));
    IdsAreOlder(l);
    if k == n {
      assert InOrder(l.timers, j, n - 1);
    } else if j != n {
      assert InOrder(l.timers, if j < n then j else j - 1, if k < n then k else k - 1);
    }
  }

  lemma InsertedShape(l: TimerList, t: NodeTimer)
    requires Shape(l) && t.position !in l.iterators
    ensures Shape(Inserted(l, t))
  {
    var l', n := Inserted(l, t), UpperBound(l.timers, TriggerOf(l, t));
    forall j, k ensures InOrder(l'.timers, j, k) {
      if 0 <= j < k < |l'.timers| {
        InsertedInOrder(l, t, j, k);
      }
    }
    forall k ensures Indexed(l', k) {
      if 0 <= k < |l'.timers| && k != n {
        assert Indexed(l, if k < n then k else k - 1);
      }
    }
    forall q ensures Pointed(l', q) {
      if q == t.position {
        InsertedNew(l, t);
      } else if q in l.iterators {
        InsertedPointed(l, t, q);
      }
    }
  }

  lemma InsertRefines(l: TimerList, t: NodeTimer, q: Pos)
    requires Shape(l) && t.position !in l.iterators
    ensures Shape(Inserted(l, t))
    ensures DeadlineAt(Inserted(l, t), q) == if q == t.position then Some(Deadline(TriggerOf(l, t), t.timeout))
                                             else DeadlineAt(l, q)
  {
    InsertedShape(l, t);
    if q == t.position {
      InsertedNew(l, t);
    } else if q in l.iterators {
      InsertedPointed(l, t, q);
    }
  }

  /** Setting a timer replaces the one at its position, and touches no other. */
  lemma SetRefines(l: TimerList, t: NodeTimer, q: Pos)
    requires Shape(l)
    ensures Shape(Set(l, t))
    ensures DeadlineAt(Set(l, t), q) == if q == t.position then Some(Deadline(TriggerOf(l, t), t.timeout))
                                        else DeadlineAt(l, q)
  {
    RemoveRefines(l, t.position, q);
    assert Pointed(l, t.position);
    InsertRefines(Removed(l, t.position), t, q);
  }

  lemma ClearRefines(l: TimerList, q: Pos)
    ensures Shape(Cleared(l)) && CacheRight(Cleared(l)) && DeadlineAt(Cleared(l), q) == None
  {
  }

  // ----- The cached minimum -----

  ghost predicate CacheRight(l: TimerList) {
    l.next == Earliest(l.timers)
  }

  /** Inserting breaks the cache exactly when the earliest deadline is -1 and the new one later. */
  lemma InsertCacheIff(l: TimerList, t: NodeTimer)
    requires Shape(l) && CacheRight(l)
    ensures CacheRight(Inserted(l, t)) <==> !(l.timers != [] && Earliest(l.timers) == NONE && TriggerOf(l, t) > NONE)
  {
    var k := UpperBound(l.timers, TriggerOf(l, t));
    if k > 0 {
      assert InOrder(l.timers, 0, k - 1);
    }
  }

  lemma RemoveKeepsCache(l: TimerList, p: Pos)
    requires Shape(l) && CacheRight(l)
    ensures CacheRight(Removed(l, p))
  {
  }

  // ----- Stepping -----

  lemma DueIff(l: TimerList, time: real, k: nat)
    requires Shape(l) && k < |l.timers|
    ensures k < DueCount(l.timers, time) <==> l.timers[k].trigger <= time
  {
    assert InOrder(l.timers, DueCount(l.timers, time), k);
  }

  lemma DroppedPointed(l: TimerList, n: nat, time: real, q: Pos)
    requires Shape(l) && n == DueCount(l.timers, time)
    ensures Pointed(Dropped(l, n, time), q)
    ensures DeadlineAt(Dropped(l, n, time), q) ==
            if DeadlineAt(l, q).Some? && DeadlineAt(l, q).value.at <= time then None else DeadlineAt(l, q)
  {
    assert Pointed(l, q);
    var l' := Dropped(l, n, time);
    if q in l.iterators {
      var k := SlotOf(l, q);
      DueIff(l, time, k);
      if k < n {
        assert l.timers[..n][k].timer.position == q;
      } else {
        forall i | 0 <= i < n ensures l.timers[i].timer.position != q {
          if l.timers[i].timer.position == q {
            OneSlotEach(l, i, k);
          }
        }
        assert HasId(l'.timers, k - n, l.iterators[q]);
        var j := IndexOf(l'.timers, l.iterators[q]);
        IndexIs(l, j + n);
      }
    }
  }

  lemma DroppedShape(l: TimerList, n: nat, time: real)
    requires Shape(l) && n == DueCount(l.timers, time)
    ensures Shape(Dropped(l, n, time)) && CacheRight(Dropped(l, n, time))
  {
    var l' := Dropped(l, n, time);
    forall j, k ensures InOrder(l'.timers, j, k) {
      assert InOrder(l.timers, j + n, k + n);
    }
    forall k ensures Indexed(l', k) {
      if 0 <= k < |l'.timers| {
        assert Indexed(l, k + n);
        forall i | 0 <= i < n ensures l.timers[i].timer.position != l.timers[k + n].timer.position {
          if l.timers[i].timer.position == l.timers[k + n].timer.position {
            OneSlotEach(l, i, k + n);
          }
        }
      }
    }
    forall q ensures Pointed(l', q) {
      DroppedPointed(l, n, time, q);
    }
  }

  ghost predicate IsDue(l: TimerList, p: Pos, time: real) {
    DeadlineAt(l, p).Some? && DeadlineAt(l, p).value.at <= time
  }

  ghost predicate FiresAt(fired: seq<NodeTimer>, k: int, p: Pos) {
    0 <= k < |fired| && fired[k].position == p
  }

  /** `fired` are the due timers, each once, in order of deadline and with the time each is late. */
  ghost predicate FiredExactly(l: TimerList, time: real, fired: seq<NodeTimer>) {
    && (forall p :: IsDue(l, p, time) <==> exists k :: FiresAt(fired, k, p))
    && (forall p, j, k :: FiresAt(fired, j, p) && FiresAt(fired, k, p) ==> j == k)
    && (forall p, k :: FiresAt(fired, k, p) && IsDue(l, p, time) ==>
          fired[k] == NodeTimer(DeadlineAt(l, p).value.timeout,
                                DeadlineAt(l, p).value.timeout + (time - DeadlineAt(l, p).value.at), p))
    && (forall p, q, j, k :: j < k && FiresAt(fired, j, p) && FiresAt(fired, k, q) ==>
          IsDue(l, p, time) && IsDue(l, q, time) ==> DeadlineAt(l, p).value.at <= DeadlineAt(l, q).value.at)
  }

  lemma DueAreFired(l: TimerList, time: real)
    requires Shape(l)
    ensures FiredExactly(l, time, FiredTimers(l.timers, DueCount(l.timers, time), time))
  {
    var n := DueCount(l.timers, time);
    var fired := FiredTimers(l.timers, n, time);
    forall p | IsDue(l, p, time) ensures exists k :: FiresAt(fired, k, p) {
      var k := SlotOf(l, p);
      DueIff(l, time, k);
      assert FiresAt(fired, k, p);
    }
    forall p, k | FiresAt(fired, k, p)
      ensures IsDue(l, p, time) && DeadlineAt(l, p) == Some(Deadline(l.timers[k].trigger, l.timers[k].timer.timeout))
    {
      SlotHasDeadline(l, k);
    }
    forall p, j, k | FiresAt(fired, j, p) && FiresAt(fired, k, p) ensures j == k {
      OneSlotEach(l, j, k);
    }
    forall j, k | 0 <= j < k < n ensures l.timers[j].trigger <= l.timers[k].trigger {
      assert InOrder(l.timers, j, k);
    }
  }

  /** What a step ought to do: fire the due timers and keep the others. */
  ghost predicate StepsRightly(l: TimerList, dtime: real) {
    var s, time := Step(l, dtime), l.time + dtime;
    && s.l.time == time && Shape(s.l) && CacheRight(s.l)
    && FiredExactly(l, time, s.fired)
    && (forall p :: DeadlineAt(s.l, p) == if IsDue(l, p, time) then None else DeadlineAt(l, p))
  }

  lemma SameButTime(l: TimerList, time: real)
    requires Shape(l)
    ensures Shape(l.(time := time)) && forall p :: DeadlineAt(l.(time := time), p) == DeadlineAt(l, p)
  {
    var l' := l.(time := time);
    forall k ensures Indexed(l', k) {
      assert Indexed(l, k);
    }
    forall p ensures Pointed(l', p) {
      assert Pointed(l, p);
    }
  }

  /** Whatever the cache says, a step keeps the slots in order and the index in step. */
  lemma StepShape(l: TimerList, dtime: real)
    requires Shape(l)
    ensures Shape(Step(l, dtime).l)
  {
    SameButTime(l, l.time + dtime);
    DroppedShape(l, DueCount(l.timers, l.time + dtime), l.time + dtime);
  }

  lemma NothingDue(l: TimerList, time: real)
    requires Shape(l) && (l.timers != [] ==> time < Earliest(l.timers))
    ensures forall p :: !IsDue(l, p, time)
  {
    forall p ensures !IsDue(l, p, time) {
      if DeadlineAt(l, p).Some? {
        var k := SlotOf(l, p);
        assert InOrder(l.timers, 0, k);
      }
    }
  }

  /** Taking -1 for "none", a step fires nothing and leaves a due timer behind. */
  lemma SentinelSilencesStep(l: TimerList, dtime: real)
    requires Shape(l) && CacheRight(l) && l.timers != [] && l.next == NONE && NONE <= l.time + dtime
    ensures !StepsRightly(l, dtime)
  {
    var p := l.timers[0].timer.position;
    SlotHasDeadline(l, 0);
    assert IsDue(l, p, l.time + dtime);
    assert forall k :: !FiresAt(Step(l, dtime).fired, k, p);
  }

  lemma NothingDueStepsRightly(l: TimerList, dtime: real)
    requires Shape(l) && CacheRight(l) && (l.timers == [] || l.time + dtime < l.next)
    ensures StepsRightly(l, dtime)
  {
    SameButTime(l, l.time + dtime);
    NothingDue(l, l.time + dtime);
  }

  lemma DueStepsRightly(l: TimerList, dtime: real)
    requires Shape(l) && CacheRight(l) && l.next != NONE && l.next <= l.time + dtime
    ensures StepsRightly(l, dtime)
  {
    var time := l.time + dtime;
    var n := DueCount(l.timers, time);
    DueAreFired(l, time);
    DroppedShape(l, n, time);
    forall p ensures DeadlineAt(Dropped(l, n, time), p) == if IsDue(l, p, time) then None else DeadlineAt(l, p) {
      DroppedPointed(l, n, time, p);
    }
  }

  /**
   With the cache right, a step fires exactly the due timers and keeps the others, unless
   the earliest deadline is -1, which it takes for "none", and has been reached.
   */
  lemma StepsRightlyIff(l: TimerList, dtime: real)
    requires Shape(l) && CacheRight(l)
    ensures StepsRightly(l, dtime) <==> !(l.timers != [] && Earliest(l.timers) == NONE && NONE <= l.time + dtime)
  {
    if l.timers == [] || l.time + dtime < l.next {
      NothingDueStepsRightly(l, dtime);
    } else if l.next == NONE {
      SentinelSilencesStep(l, dtime);
    } else {
      DueStepsRightly(l, dtime);
    }
  }
}
