/** Node timers over whole runs of operations, and across saving and loading. */
module TimerRuns {
  import opened Common
  import opened NodeTimers

  // ----- Runs -----

  datatype Op = SetTimer(timer: NodeTimer) | RemoveTimer(pos: Pos) | ClearAll | Advance(dtime: real)

  ghost function Apply(l: TimerList, op: Op): TimerList {
    match op
    case SetTimer(t) => Set(l, t)
    case RemoveTimer(p) => Removed(l, p)
    case ClearAll => Cleared(l)
    case Advance(dtime) => Step(l, dtime).l
  }

  /** A clock and a map of deadlines: what the structure is meant to be. */
  datatype Clock = Clock(time: real, deadlines: map<Pos, Deadline>)

  ghost function Do(c: Clock, op: Op): Clock {
    match op
    case SetTimer(t) => c.(deadlines := c.deadlines[t.position := Deadline(c.time + (t.timeout - t.elapsed),
                                                                           t.timeout)])
    case RemoveTimer(p) => c.(deadlines := c.deadlines - {p})
    case ClearAll => c.(deadlines := map[])
    case Advance(dtime) =>
      var time := c.time + dtime;
      Clock(time, map p | p in c.deadlines && c.deadlines[p].at > time :: c.deadlines[p])
  }

  /** No timer is set for the one time that stands for "none". */
  predicate Unmistakable(c: Clock, op: Op) {
    op.SetTimer? ==> c.time + (op.timer.timeout - op.timer.elapsed) != NONE
  }

  function Lookup(m: map<Pos, Deadline>, p: Pos): Option<Deadline> {
    if p in m then Some(m[p]) else None
  }

  ghost predicate Refines(l: TimerList, c: Clock) {
    && Shape(l) && CacheRight(l) && l.time == c.time
    && (forall p :: p in c.deadlines ==> c.deadlines[p].at != NONE)
    && (forall p {:trigger DeadlineAt(l, p)} :: DeadlineAt(l, p) == Lookup(c.deadlines, p))
  }

  lemma NoSentinel(l: TimerList, c: Clock)
    requires Refines(l, c) && l.timers != []
    ensures Earliest(l.timers) != NONE
  {
    SlotHasDeadline(l, 0);
  }

  lemma SetKeepsCache(l: TimerList, c: Clock, t: NodeTimer)
    requires Refines(l, c) && Unmistakable(c, SetTimer(t))
    ensures CacheRight(Set(l, t)) && Shape(Set(l, t))
  {
    RemoveStep(l, c, t.position);
    var rest := Removed(l, t.position);
    if rest.timers != [] {
      NoSentinel(rest, Do(c, RemoveTimer(t.position)));
    }
    InsertCacheIff(rest, t);
    SetRefines(l, t, t.position);
  }

  lemma SetStep(l: TimerList, c: Clock, t: NodeTimer)
    requires Refines(l, c) && Unmistakable(c, SetTimer(t))
    ensures Refines(Set(l, t), Do(c, SetTimer(t)))
  {
    SetKeepsCache(l, c, t);
    var l', c' := Set(l, t), Do(c, SetTimer(t));
    forall p ensures DeadlineAt(l', p) == Lookup(c'.deadlines, p) {
      SetRefines(l, t, p);
      assert DeadlineAt(l, p) == Lookup(c.deadlines, p);
    }
  }

  lemma RemoveStep(l: TimerList, c: Clock, p: Pos)
    requires Refines(l, c)
    ensures Refines(Removed(l, p), Do(c, RemoveTimer(p)))
  {
    forall q ensures DeadlineAt(Removed(l, p), q) == Lookup(c.deadlines - {p}, q) {
      RemoveRefines(l, p, q);
    }
    RemoveRefines(l, p, p);
    RemoveKeepsCache(l, p);
  }

  lemma ClearStep(l: TimerList, c: Clock)
    requires Refines(l, c)
    ensures Refines(Cleared(l), Do(c, ClearAll))
  {
    forall p ensures DeadlineAt(Cleared(l), p) == Lookup(Do(c, ClearAll).deadlines, p) {
      ClearRefines(l, p);
    }
    ClearRefines(l, Pos(0, 0, 0));
  }

  lemma AdvanceStep(l: TimerList, c: Clock, dtime: real)
    requires Refines(l, c)
    ensures StepsRightly(l, dtime) && Refines(Step(l, dtime).l, Do(c, Advance(dtime)))
  {
    if l.timers != [] {
      NoSentinel(l, c);
    }
    StepsRightlyIff(l, dtime);
    var l', c' := Step(l, dtime).l, Do(c, Advance(dtime));
    forall p ensures DeadlineAt(l', p) == Lookup(c'.deadlines, p) {
      assert DeadlineAt(l, p) == Lookup(c.deadlines, p);
    }
  }

  ghost function RunAll(l: TimerList, ops: seq<Op>): TimerList {
    if ops == [] then l else Apply(RunAll(l, ops[..|ops| - 1]), ops[|ops| - 1])
  }

  ghost function DoAll(c: Clock, ops: seq<Op>): Clock {
    if ops == [] then c else Do(DoAll(c, ops[..|ops| - 1]), ops[|ops| - 1])
  }

  ghost predicate AllUnmistakable(c: Clock, ops: seq<Op>) {
    ops == [] || (AllUnmistakable(c, ops[..|ops| - 1]) && Unmistakable(DoAll(c, ops[..|ops| - 1]), ops[|ops| - 1]))
  }

  /** Under every sequence of operations the two indexes and the cache together are the map. */
  lemma {:induction false} RunsRefine(l: TimerList, c: Clock, ops: seq<Op>)
    requires Refines(l, c) && AllUnmistakable(c, ops)
    ensures Refines(RunAll(l, ops), DoAll(c, ops))
  {
    if ops != [] {
      var before := ops[..|ops| - 1];
      RunsRefine(l, c, before);
      match ops[|ops| - 1]
      case SetTimer(t) => SetStep(RunAll(l, before), DoAll(c, before), t);
      case RemoveTimer(p) => RemoveStep(RunAll(l, before), DoAll(c, before), p);
      case ClearAll => ClearStep(RunAll(l, before), DoAll(c, before));
      case Advance(dtime) => AdvanceStep(RunAll(l, before), DoAll(c, before), dtime);
    }
  }

  lemma EmptyRefines(time: real)
    ensures Refines(TimerList([], map[], NONE, time, 0), Clock(time, map[]))
  {
  }

  // ----- Each timer once, and on time -----

  /** The operation neither sets nor removes the timer at `p`, and time does not run backwards. */
  predicate LeavesAlone(op: Op, p: Pos) {
    match op
    case SetTimer(t) => t.position != p
    case RemoveTimer(q) => q != p
    case ClearAll => false
    case Advance(dtime) => dtime >= 0.0
  }

  ghost predicate AllLeaveAlone(ops: seq<Op>, p: Pos) {
    forall i :: 0 <= i < |ops| ==> LeavesAlone(ops[i], p)
  }

  ghost predicate HasAdvance(ops: seq<Op>) {
    exists i :: 0 <= i < |ops| && ops[i].Advance?
  }

  /** What becomes of one deadline while only other timers are touched. */
  lemma {:induction false} DeadlineLeftAlone(c: Clock, ops: seq<Op>, p: Pos)
    requires p in c.deadlines && AllLeaveAlone(ops, p)
    ensures var c' := DoAll(c, ops);
            && c'.time >= c.time && (!HasAdvance(ops) ==> c'.time == c.time)
            && Lookup(c'.deadlines, p) ==
               if !HasAdvance(ops) || c.deadlines[p].at > c'.time then Some(c.deadlines[p]) else None
  {
    if ops != [] {
      var before, op := ops[..|ops| - 1], ops[|ops| - 1];
      DeadlineLeftAlone(c, before, p);
      assert LeavesAlone(op, p);
      assert HasAdvance(ops) <==> HasAdvance(before) || op.Advance? by {
        if i :| 0 <= i < |before| && before[i].Advance? {
          assert ops[i].Advance?;
        }
        if i :| 0 <= i < |ops| && ops[i].Advance? {
          assert i < |before| ==> before[i].Advance?;
        }
      }
    }
  }

  ghost predicate Fires(l: TimerList, dtime: real, p: Pos) {
    exists k :: FiresAt(Step(l, dtime).fired, k, p)
  }

  /**
   Whatever is done to other timers meanwhile, a timer that is left alone fires in one step
   only: the first that reaches its deadline; or the very first, if it has passed already.
   */
  lemma FiresOnceAndOnTime(l: TimerList, c: Clock, ops: seq<Op>, dtime: real, p: Pos)
    requires Refines(l, c) && p in c.deadlines && AllUnmistakable(c, ops) && AllLeaveAlone(ops, p) && dtime >= 0.0
    ensures var now := DoAll(c, ops).time;
            Fires(RunAll(l, ops), dtime, p)
            <==> (!HasAdvance(ops) || now < c.deadlines[p].at) && c.deadlines[p].at <= now + dtime
  {
    RunsRefine(l, c, ops);
    DeadlineLeftAlone(c, ops, p);
    var l', c' := RunAll(l, ops), DoAll(c, ops);
    AdvanceStep(l', c', dtime);
    assert DeadlineAt(l', p) == Lookup(c'.deadlines, p);
  }

  ghost predicate OnlyAdvances(ops: seq<Op>) {
    forall i :: 0 <= i < |ops| ==> ops[i].Advance? && ops[i].dtime >= 0.0
  }

  /** A list that believes it has no timers only moves its clock. */
  lemma {:induction false} BelievedEmpty(l: TimerList, ops: seq<Op>)
    requires l.next == NONE && OnlyAdvances(ops)
    ensures var r := RunAll(l, ops); r == l.(time := r.time) && r.time >= l.time
  {
    if ops != [] {
      BelievedEmpty(l, ops[..|ops| - 1]);
    }
  }

  /** Set with more time elapsed than its timeout, by just the sentinel, a timer is fired by no step. */
  lemma OverdueByOneNeverFires(ops: seq<Op>, dtime: real)
    requires OnlyAdvances(ops) && dtime >= 0.0
    ensures var p := Pos(0, 0, 0);
            var l := Set(TimerList([], map[], NONE, 0.0, 0), NodeTimer(1.0, 2.0, p));
            IsDue(RunAll(l, ops), p, RunAll(l, ops).time + dtime) && !Fires(RunAll(l, ops), dtime, p)
  {
    var p := Pos(0, 0, 0);
    var empty := TimerList([], map[], NONE, 0.0, 0);
    EmptyRefines(0.0);
    SetRefines(empty, NodeTimer(1.0, 2.0, p), p);
    var l := Set(empty, NodeTimer(1.0, 2.0, p));
    BelievedEmpty(l, ops);
    SameButTime(l, RunAll(l, ops).time);
  }

  // ----- Saving and loading -----

  /** A saved timer: its packed position, its timeout, and the time that has elapsed. */
  datatype Saved = Saved(p16: U16, timeout: real, elapsed: real)

  /** A block measures 16 nodes each way. */
  function Pack(p: Pos): U16 {
    (p.z * 256 + p.y * 16 + p.x) % 0x1_0000
  }

  function Unpack(p16: U16): Pos {
    var low := p16 % 256;
    Pos(low % 16, low / 16, p16 / 16 / 16)
  }

  predicate InBlock(p: Pos) {
    0 <= p.x < 16 && 0 <= p.y < 16 && 0 <= p.z < 16
  }

  lemma PackRoundTrip(p: Pos)
    requires InBlock(p)
    ensures Unpack(Pack(p)) == p && Pack(p) == (p.z * 16 + p.y) * 16 + p.x
  {
    var low := p.y * 16 + p.x;
    assert Pack(p) == p.z * 256 + low;
    assert Pack(p) % 256 == low && Pack(p) / 16 == p.z * 16 + p.y;
  }

  function Save(s: Slot, time: real): Saved {
    Saved(Pack(s.timer.position), s.timer.timeout, s.timer.timeout - (s.trigger - time))
  }

  /** The record has the index of the node in its block, and the time that remains is timeout less elapsed. */
  predicate Records(r: Saved, s: Slot, time: real) {
    var p := s.timer.position;
    && (InBlock(p) ==> r.p16 == (p.z * 16 + p.y) * 16 + p.x)
    && r.timeout == s.timer.timeout && r.timeout - r.elapsed == s.trigger - time
  }

  lemma SaveRecords(s: Slot, time: real)
    ensures Records(Save(s, time), s, time)
  {
    var p := s.timer.position;
    if InBlock(p) {
      PackRoundTrip(p);
    }
  }

  function SaveAll(timers: seq<Slot>, time: real): (r: seq<Saved>)
    ensures |r| == |timers| && forall k :: 0 <= k < |r| ==> r[k] == Save(timers[k], time)
  {
    seq(|timers|, k requires 0 <= k < |timers| => Save(timers[k], time))
  }

  /** Timers without a positive timeout, and second ones for a position, are ignored. */
  function LoadOne(l: TimerList, s: Saved): TimerList {
    var t := NodeTimer(s.timeout, s.elapsed, Unpack(s.p16));
    if s.timeout <= 0.0 || t.position in l.iterators then l else Inserted(l, t)
  }

  function LoadAll(l: TimerList, saved: seq<Saved>): TimerList {
    if saved == [] then l else LoadOne(LoadAll(l, saved[..|saved| - 1]), saved[|saved| - 1])
  }

  /** The deadline a slot has once saved and loaded: the time remaining is kept. */
  ghost function Shifted(l: TimerList, k: nat, time: real): Deadline
    requires k < |l.timers|
  {
    Deadline(time + (l.timers[k].trigger - l.time), l.timers[k].timer.timeout)
  }

  ghost predicate Kept(l: TimerList, k: int, n: nat) {
    0 <= k < |l.timers| && k < n && l.timers[k].timer.timeout > 0.0
  }

  /** The first `n` slots have been loaded, those ignored excepted. */
  ghost predicate Loaded(l: TimerList, r: TimerList, n: nat, time: real) {
    && Shape(r) && r.time == time
    && (forall k :: Kept(l, k, n) ==> DeadlineAt(r, l.timers[k].timer.position) == Some(Shifted(l, k, time)))
    && (forall p :: p in r.iterators ==> exists k :: Kept(l, k, n) && l.timers[k].timer.position == p)
  }

  lemma LoadStep(l: TimerList, r: TimerList, n: nat, time: real)
    requires Shape(l) && n < |l.timers| && Loaded(l, r, n, time) && InBlock(l.timers[n].timer.position)
    ensures Loaded(l, LoadOne(r, Save(l.timers[n], l.time)), n + 1, time)
  {
    var s, r' := Save(l.timers[n], l.time), LoadOne(r, Save(l.timers[n], l.time));
    var p := l.timers[n].timer.position;
    PackRoundTrip(p);
    if p in r.iterators {
      var k :| Kept(l, k, n) && l.timers[k].timer.position == p;
      OneSlotEach(l, k, n);
    }
    if s.timeout > 0.0 {
      var t := NodeTimer(s.timeout, s.elapsed, p);
      InsertRefines(r, t, p);
      assert Kept(l, n, n + 1);
      forall k | Kept(l, k, n + 1) ensures DeadlineAt(r', l.timers[k].timer.position) == Some(Shifted(l, k, time)) {
        if k < n {
          assert Kept(l, k, n);
          InsertRefines(r, t, l.timers[k].timer.position);
          assert l.timers[k].timer.position != p;
        }
      }
    }
    forall q | q in r'.iterators ensures exists k :: Kept(l, k, n + 1) && l.timers[k].timer.position == q {
      if q in r.iterators {
        var k :| Kept(l, k, n) && l.timers[k].timer.position == q;
        assert Kept(l, k, n + 1);
      }
    }
  }

  lemma {:induction false} LoadingPrefix(l: TimerList, r: TimerList, n: nat)
    requires Shape(l) && n <= |l.timers| && forall k :: 0 <= k < |l.timers| ==> InBlock(l.timers[k].timer.position)
    ensures Loaded(l, LoadAll(Cleared(r), SaveAll(l.timers, l.time)[..n]), n, r.time)
  {
    var saved := SaveAll(l.timers, l.time);
    if n > 0 {
      LoadingPrefix(l, r, n - 1);
      assert saved[..n][..n - 1] == saved[..n - 1];
      LoadStep(l, LoadAll(Cleared(r), saved[..n - 1]), n - 1, r.time);
    } else {
      assert saved[..0] == [];
    }
  }

  lemma LoadedKeepsRemaining(l: TimerList, r: TimerList, time: real, p: Pos)
    requires Shape(l) && Loaded(l, r, |l.timers|, time)
    ensures DeadlineAt(r, p) == Remaining(DeadlineAt(l, p), l.time, time)
  {
    if p in r.iterators {
      var k :| Kept(l, k, |l.timers|) && l.timers[k].timer.position == p;
      SlotHasDeadline(l, k);
    } else if DeadlineAt(l, p).Some? {
      var k := SlotOf(l, p);
      assert !Kept(l, k, |l.timers|);
    }
  }

  /** A deadline carried over from one time to another; without a positive timeout it is dropped. */
  function Remaining(d: Option<Deadline>, was: real, now: real): Option<Deadline> {
    if d.Some? && d.value.timeout > 0.0 then Some(Deadline(now + (d.value.at - was), d.value.timeout)) else None
  }

  /** The loaded deadlines keep clear of the sentinel. */
  ghost predicate ClearOfSentinel(l: TimerList, time: real) {
    forall k :: Kept(l, k, |l.timers|) ==> Shifted(l, k, time).at != NONE
  }

  lemma {:induction false} LoadingKeepsCache(l: TimerList, r: TimerList, n: nat)
    requires Shape(l) && n <= |l.timers| && ClearOfSentinel(l, r.time)
    requires forall k :: 0 <= k < |l.timers| ==> InBlock(l.timers[k].timer.position)
    ensures CacheRight(LoadAll(Cleared(r), SaveAll(l.timers, l.time)[..n]))
  {
    var saved := SaveAll(l.timers, l.time);
    if n > 0 {
      assert saved[..n][..n - 1] == saved[..n - 1];
      var before := LoadAll(Cleared(r), saved[..n - 1]);
      LoadingKeepsCache(l, r, n - 1);
      LoadingPrefix(l, r, n - 1);
      EarliestIsKept(l, before, n - 1, r.time);
      InsertCacheIff(before, NodeTimer(saved[n - 1].timeout, saved[n - 1].elapsed, Unpack(saved[n - 1].p16)));
    } else {
      assert saved[..0] == [];
    }
  }

  lemma EarliestIsKept(l: TimerList, r: TimerList, n: nat, time: real)
    requires n <= |l.timers| && Loaded(l, r, n, time) && ClearOfSentinel(l, time)
    ensures r.timers != [] ==> Earliest(r.timers) != NONE
  {
    if r.timers != [] {
      var p := r.timers[0].timer.position;
      SlotHasDeadline(r, 0);
      var k :| Kept(l, k, n) && l.timers[k].timer.position == p;
      assert Kept(l, k, |l.timers|);
    }
  }

  /**
   Saved and loaded again, at whatever time, every timer with a positive timeout has the
   time remaining that it had, and there is no other.
   */
  lemma ReloadKeepsRemaining(l: TimerList, r: TimerList, p: Pos)
    requires Shape(l) && forall k :: 0 <= k < |l.timers| ==> InBlock(l.timers[k].timer.position)
    ensures DeadlineAt(LoadAll(Cleared(r), SaveAll(l.timers, l.time)), p) == Remaining(DeadlineAt(l, p), l.time, r.time)
  {
    var saved := SaveAll(l.timers, l.time);
    LoadingPrefix(l, r, |l.timers|);
    assert saved[..|l.timers|] == saved;
    LoadedKeepsRemaining(l, LoadAll(Cleared(r), saved), r.time, p);
  }

  /** The map after reloading at another time. */
  ghost function Reloaded(c: Clock, time: real): Clock {
    Clock(time, map p | p in c.deadlines && c.deadlines[p].timeout > 0.0 ::
      Deadline(time + (c.deadlines[p].at - c.time), c.deadlines[p].timeout))
  }

  /**
   If no loaded deadline is the sentinel, the loaded list is in order altogether, cached
   minimum included, so that runs may go on from it.
   */
  lemma ReloadRefines(l: TimerList, c: Clock, r: TimerList)
    requires Refines(l, c) && forall k :: 0 <= k < |l.timers| ==> InBlock(l.timers[k].timer.position)
    requires forall p :: p in Reloaded(c, r.time).deadlines ==> Reloaded(c, r.time).deadlines[p].at != NONE
    ensures Refines(LoadAll(Cleared(r), SaveAll(l.timers, l.time)), Reloaded(c, r.time))
  {
    var saved := SaveAll(l.timers, l.time);
    var r', c' := LoadAll(Cleared(r), saved), Reloaded(c, r.time);
    assert saved[..|l.timers|] == saved;
    LoadingPrefix(l, r, |l.timers|);
    forall k | Kept(l, k, |l.timers|) ensures Shifted(l, k, r.time).at != NONE {
      SlotHasDeadline(l, k);
      assert l.timers[k].timer.position in c'.deadlines;
    }
    LoadingKeepsCache(l, r, |l.timers|);
    ReloadedDeadlines(l, c, r);
  }

  lemma ReloadedDeadlines(l: TimerList, c: Clock, r: TimerList)
    requires Refines(l, c) && forall k :: 0 <= k < |l.timers| ==> InBlock(l.timers[k].timer.position)
    ensures var r' := LoadAll(Cleared(r), SaveAll(l.timers, l.time));
            forall p :: DeadlineAt(r', p) == Lookup(Reloaded(c, r.time).deadlines, p)
  {
    var r', c' := LoadAll(Cleared(r), SaveAll(l.timers, l.time)), Reloaded(c, r.time);
    forall p ensures DeadlineAt(r', p) == Lookup(c'.deadlines, p) {
      ReloadKeepsRemaining(l, r, p);
      assert DeadlineAt(l, p) == Lookup(c.deadlines, p);
    }
  }
}
