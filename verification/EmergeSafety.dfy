/** Invariants of the emerge protocol over every run: queue, limits, merging, and the chunk lock. */
module EmergeSafety {
  import opened Common
  import opened EmergeQueue
  import opened ChunkLock
  import opened EmergeRuns

  // ----- The queue -----

  lemma {:induction false} StopKeepsQueue(s: System, t: nat)
    requires Consistent(s.q) && |s.hands| == |s.q.fifos|
    ensures var s' := StopStep(s, t); Consistent(s'.q) && |s'.hands| == |s'.q.fifos| == |s.q.fifos|
    decreases if t < |s.q.fifos| then |s.q.fifos[t]| else 0
  {
    if IsIdle(s, t) && CanPop(s.q, t) {
      PopConsistent(s.q, t);
      StopKeepsQueue(ReportStep(GiveUpStep(TakeStep(s, t), t), t), t);
    }
  }

  lemma StepKeepsQueue(cfg: Config, s: System, e: Event)
    requires cfg.params.chunkSize > 0 && Consistent(s.q) && |s.hands| == |s.q.fifos|
    ensures var s' := Step(cfg, s, e); Consistent(s'.q) && |s'.hands| == |s'.q.fifos| == |s.q.fifos|
  {
    match e
    case Submit(r) => EnqueueConsistent(s.q, cfg.limits, r);
    case Take(t) => if IsIdle(s, t) && CanPop(s.q, t) { PopConsistent(s.q, t); }
    case Stop(t) => StopKeepsQueue(s, t);
    case _ =>
  }

  lemma {:induction false} NothingQueued(fifos: seq<seq<Pos>>, p: Pos)
    requires forall t :: 0 <= t < |fifos| ==> fifos[t] == []
    ensures Times(fifos, p) == 0
  {
    if fifos != [] {
      NothingQueued(fifos[..|fifos| - 1], p);
    }
  }

  lemma InitialConsistent(q: Queue)
    requires |q.fifos| > 0 && q.table == map[] && q.peers == map[]
             && forall t :: 0 <= t < |q.fifos| ==> q.fifos[t] == []
    ensures Consistent(q)
  {
    forall p ensures QueuedOnce(q, p) {
      NothingQueued(q.fifos, p);
    }
    forall peer ensures Agrees(q.table, q.peers, peer) {
      assert RequestedBy(q.table, peer) == {};
    }
  }

  /**
   Table, FIFOs and counters agree in every reachable state; so an idle thread with a
   non-empty queue always pops its block, and no counter assertion ever fires.
   */
  lemma {:induction false} QueueAlwaysConsistent(cfg: Config, s: System, events: seq<Event>)
    requires cfg.params.chunkSize > 0 && Initial(s)
    ensures var r := Run(cfg, s, events);
            && Consistent(r.q) && |r.hands| == |r.q.fifos| == |s.q.fifos|
            && (forall t :: 0 <= t < |r.q.fifos| && |r.q.fifos[t]| > 0 ==> CanPop(r.q, t))
  {
    if events == [] {
      InitialConsistent(s.q);
    } else {
      QueueAlwaysConsistent(cfg, s, events[..|events| - 1]);
      StepKeepsQueue(cfg, Run(cfg, s, events[..|events| - 1]), events[|events| - 1]);
    }
    var r := Run(cfg, s, events);
    forall t | 0 <= t < |r.q.fifos| && |r.q.fifos[t]| > 0 ensures CanPop(r.q, t) {
      PopNeverFails(r.q, t);
    }
  }

  // ----- Limits -----

  predicate Forced(e: Event) {
    e.Submit? && ForceQueue in e.request.flags
  }

  lemma {:induction false} StopWithinLimits(s: System, t: nat, limits: Limits)
    requires WithinLimits(s.q, limits)
    ensures WithinLimits(StopStep(s, t).q, limits)
    decreases if t < |s.q.fifos| then |s.q.fifos[t]| else 0
  {
    if IsIdle(s, t) && CanPop(s.q, t) {
      PopWithinLimits(s.q, limits, t);
      StopWithinLimits(ReportStep(GiveUpStep(TakeStep(s, t), t), t), t, limits);
    }
  }

  lemma StepWithinLimits(cfg: Config, s: System, e: Event)
    requires cfg.params.chunkSize > 0 && WithinLimits(s.q, cfg.limits) && !Forced(e)
    ensures WithinLimits(Step(cfg, s, e).q, cfg.limits)
  {
    match e
    case Submit(r) => if |s.q.fifos| > 0 { EnqueueWithinLimits(s.q, cfg.limits, r); }
    case Take(t) => if IsIdle(s, t) && CanPop(s.q, t) { PopWithinLimits(s.q, cfg.limits, t); }
    case Stop(t) => StopWithinLimits(s, t, cfg.limits);
    case _ => assert Step(cfg, s, e).q == s.q;
  }

  /** As long as nobody forces a request in, the queue limits are never exceeded. */
  lemma {:induction false} LimitsNeverExceeded(cfg: Config, s: System, events: seq<Event>)
    requires cfg.params.chunkSize > 0 && Initial(s) && forall i :: 0 <= i < |events| ==> !Forced(events[i])
    ensures WithinLimits(Run(cfg, s, events).q, cfg.limits)
  {
    if events != [] {
      LimitsNeverExceeded(cfg, s, events[..|events| - 1]);
      StepWithinLimits(cfg, Run(cfg, s, events[..|events| - 1]), events[|events| - 1]);
    }
  }

  // ----- Merging -----

  ghost function AllCallbacks(rs: seq<Request>): seq<Callback> {
    if rs == [] then [] else AllCallbacks(rs[..|rs| - 1]) + CallbackList(rs[|rs| - 1].callback)
  }

  /** The entry of the first request's peer, with everybody's flags and callbacks. */
  ghost predicate Merges(e: Entry, rs: seq<Request>) {
    && rs != [] && e.peer == rs[0].peer
    && (forall f :: f in e.flags <==> exists i :: 0 <= i < |rs| && f in rs[i].flags)
    && e.callbacks == AllCallbacks(rs)
  }

  ghost predicate MergedAt(s: System, p: Pos) {
    && (p in s.q.table <==> p in s.log.pending)
    && (p in s.q.table && p in s.log.pending ==> Merges(s.q.table[p], s.log.pending[p]))
  }

  lemma MergeOne(r: Request)
    ensures Merges(Entry(r.peer, r.flags, CallbackList(r.callback)), [r])
  {
    assert [r][0] == r;
    assert AllCallbacks([r]) == AllCallbacks([]) + CallbackList(r.callback);
  }

  lemma MergeAnother(e: Entry, rs: seq<Request>, r: Request)
    requires Merges(e, rs)
    ensures Merges(Entry(e.peer, e.flags + r.flags, e.callbacks + CallbackList(r.callback)), rs + [r])
  {
    var all := rs + [r];
    assert all[..|rs|] == rs;
    forall f ensures f in e.flags + r.flags <==> exists i :: 0 <= i < |all| && f in all[i].flags {
      if f in e.flags {
        var i :| 0 <= i < |rs| && f in rs[i].flags;
        assert f in all[i].flags;
      }
      if f in r.flags {
        assert f in all[|rs|].flags;
      }
    }
  }

  lemma SubmitMerges(cfg: Config, s: System, r: Request, p: Pos)
    requires |s.q.fifos| > 0 && MergedAt(s, p)
    ensures MergedAt(SubmitStep(cfg, s, r), p)
  {
    if !Refused(s.q, cfg.limits, r) && p == r.pos {
      if p in s.q.table {
        MergeAnother(s.q.table[p], s.log.pending[p], r);
      } else {
        MergeOne(r);
        assert [] + [r] == [r];
      }
    }
  }

  lemma {:induction false} StopMerges(s: System, t: nat, p: Pos)
    requires MergedAt(s, p)
    ensures MergedAt(StopStep(s, t), p)
    decreases if t < |s.q.fifos| then |s.q.fifos[t]| else 0
  {
    if IsIdle(s, t) && CanPop(s.q, t) {
      StopMerges(ReportStep(GiveUpStep(TakeStep(s, t), t), t), t, p);
    }
  }

  lemma StepMerges(cfg: Config, s: System, e: Event, p: Pos)
    requires cfg.params.chunkSize > 0 && MergedAt(s, p)
    ensures MergedAt(Step(cfg, s, e), p)
  {
    match e
    case Submit(r) => if |s.q.fifos| > 0 { SubmitMerges(cfg, s, r, p); }
    case Take(t) =>
    case Stop(t) => StopMerges(s, t, p);
    case _ => assert Step(cfg, s, e).q == s.q && Step(cfg, s, e).log.pending == s.log.pending;
  }

  /** A queued entry is always the merger of the accepted requests since it was queued. */
  lemma {:induction false} EntriesMergeRequests(cfg: Config, s: System, events: seq<Event>, p: Pos)
    requires cfg.params.chunkSize > 0 && Initial(s)
    ensures MergedAt(Run(cfg, s, events), p)
  {
    if events != [] {
      EntriesMergeRequests(cfg, s, events[..|events| - 1], p);
      StepMerges(cfg, Run(cfg, s, events[..|events| - 1]), events[|events| - 1], p);
    }
  }

  // ----- Dropped blocks -----

  ghost predicate DropsAreFar(s: System) {
    forall i :: 0 <= i < |s.log.dropped| ==> OverMaxLimit(s.log.dropped[i].pos)
  }

  lemma {:induction false} StopDropsNothing(s: System, t: nat)
    ensures StopStep(s, t).log.dropped == s.log.dropped
    decreases if t < |s.q.fifos| then |s.q.fifos[t]| else 0
  {
    if IsIdle(s, t) && CanPop(s.q, t) {
      StopDropsNothing(ReportStep(GiveUpStep(TakeStep(s, t), t), t), t);
    }
  }

  lemma {:induction false} OnlyFarBlocksDropped(cfg: Config, s: System, events: seq<Event>)
    requires cfg.params.chunkSize > 0 && Initial(s)
    ensures DropsAreFar(Run(cfg, s, events))
  {
    if events != [] {
      var before := Run(cfg, s, events[..|events| - 1]);
      OnlyFarBlocksDropped(cfg, s, events[..|events| - 1]);
      if events[|events| - 1].Stop? {
        StopDropsNothing(before, events[|events| - 1].t);
      }
    }
  }

  lemma {:induction false} NoReportFor(reports: seq<Report>, k: Ticket)
    requires forall i :: 0 <= i < |reports| ==> reports[i].pos != k.pos
    ensures Reported(reports, k) == 0
  {
    if reports != [] {
      NoReportFor(reports[..|reports| - 1], k);
    }
  }

  /**
   For blocks within the map limit: an accepted callback is waiting in the table, in the
   hands of a thread, or has been run; so it is never run more often than it was accepted.
   */
  lemma CallbacksDelivered(cfg: Config, s: System, events: seq<Event>, k: Ticket)
    requires cfg.params.chunkSize > 0 && Initial(s) && !OverMaxLimit(k.pos)
    ensures var r := Run(cfg, s, events);
            Asked(r.log.accepted, k) == InTable(r.q.table, k) + InHands(r.hands, k) + Reported(r.log.reports, k)
  {
    CallbacksConserved(cfg, s, events, k);
    OnlyFarBlocksDropped(cfg, s, events);
    NoReportFor(Run(cfg, s, events).log.dropped, k);
  }

  /**
   Between two steps a far block is at most waiting or held, and what was reported of far
   blocks is that they were cancelled.
   */
  ghost predicate FarUnserved(s: System) {
    && (forall t :: 0 <= t < |s.hands| && (s.hands[t].Generating? || s.hands[t].Reporting?)
          ==> !OverMaxLimit(s.hands[t].pos))
    && (forall i :: 0 <= i < |s.log.reports| && OverMaxLimit(s.log.reports[i].pos)
          ==> s.log.reports[i].action == Cancelled)
  }

  ghost predicate NoFarReport(s: System) {
    forall i :: 0 <= i < |s.log.reports| ==> !OverMaxLimit(s.log.reports[i].pos)
  }

  lemma {:induction false} StopServesNoFar(s: System, t: nat)
    requires FarUnserved(s)
    ensures FarUnserved(StopStep(s, t))
    decreases if t < |s.q.fifos| then |s.q.fifos[t]| else 0
  {
    if IsIdle(s, t) && CanPop(s.q, t) {
      StopServesNoFar(ReportStep(GiveUpStep(TakeStep(s, t), t), t), t);
    }
  }

  lemma StepServesNoFar(cfg: Config, s: System, e: Event)
    requires cfg.params.chunkSize > 0 && FarUnserved(s)
    ensures FarUnserved(Step(cfg, s, e))
    ensures NoFarReport(s) && !e.Stop? ==> NoFarReport(Step(cfg, s, e))
  {
    match e
    case Stop(t) => StopServesNoFar(s, t);
    case _ =>
  }

  /**
   A far block is never served: a report for one can only be a cancel, and in a run in which
   no thread stops there is none at all.
   */
  lemma {:induction false} FarBlocksNeverServed(cfg: Config, s: System, events: seq<Event>)
    requires cfg.params.chunkSize > 0 && Initial(s)
    ensures FarUnserved(Run(cfg, s, events))
    ensures (forall i :: 0 <= i < |events| ==> !events[i].Stop?) ==> NoFarReport(Run(cfg, s, events))
  {
    if events != [] {
      FarBlocksNeverServed(cfg, s, events[..|events| - 1]);
      StepServesNoFar(cfg, Run(cfg, s, events[..|events| - 1]), events[|events| - 1]);
    }
  }

  /**
   So while no thread stops, an accepted callback of a far block is waiting, in the hands of
   a thread, or dropped; it is never run.
   */
  lemma FarCallbacksNeverRun(cfg: Config, s: System, events: seq<Event>, k: Ticket)
    requires cfg.params.chunkSize > 0 && Initial(s) && OverMaxLimit(k.pos)
    requires forall i :: 0 <= i < |events| ==> !events[i].Stop?
    ensures var r := Run(cfg, s, events);
            && Reported(r.log.reports, k) == 0
            && Asked(r.log.accepted, k) == InTable(r.q.table, k) + InHands(r.hands, k) + Reported(r.log.dropped, k)
  {
    CallbacksConserved(cfg, s, events, k);
    FarBlocksNeverServed(cfg, s, events);
    NoReportFor(Run(cfg, s, events).log.reports, k);
  }

  /** A thread drops what it holds exactly when that is a far block. */
  lemma DroppedIffFar(cfg: Config, s: System, t: nat)
    requires cfg.params.chunkSize > 0 && t < |s.hands| && s.hands[t].Holding?
    ensures var h, s' := s.hands[t], FetchStep(cfg, s, t);
            && (OverMaxLimit(h.pos) <==> s'.log.dropped != s.log.dropped)
            && (OverMaxLimit(h.pos) ==>
                  && s'.hands[t] == Idle && s'.log.reports == s.log.reports && s'.m == s.m
                  && s'.log.dropped == s.log.dropped + [Report(h.pos, h.entry.callbacks, Cancelled)])
  {
    assert |s.log.dropped + [Report(s.hands[t].pos, s.hands[t].entry.callbacks, Cancelled)]| > |s.log.dropped|;
  }

  /** Requested, taken and looked at, a far block is gone, and its callback with it. */
  lemma FarRequestIsDropped(cfg: Config, s: System, r: Request)
    requires cfg.params.chunkSize > 0 && Initial(s) && OverMaxLimit(r.pos) && !Refused(s.q, cfg.limits, r)
    ensures var f := Run(cfg, s, [Submit(r), Take(0), Fetch(0)]);
            && f.log.accepted == [r] && f.log.reports == []
            && f.log.dropped == [Report(r.pos, CallbackList(r.callback), Cancelled)]
            && r.pos !in f.q.table && f.hands == s.hands
  {
    var events := [Submit(r), Take(0), Fetch(0)];
    assert events[..2] == [Submit(r), Take(0)] && events[..2][..1] == [Submit(r)] && events[..1][..0] == [];
    var submitted := SubmitStep(cfg, s, r);
    assert Run(cfg, s, [Submit(r)]) == submitted;
    InitialConsistent(s.q);
    EnqueueConsistent(s.q, cfg.limits, r);
    assert submitted.q.fifos[0] == [r.pos];
    PopNeverFails(submitted.q, 0);
    assert Run(cfg, s, [Submit(r), Take(0)]) == TakeStep(submitted, 0);
    DroppedIffFar(cfg, TakeStep(submitted, 0), 0);
  }

  // ----- Shutting down -----

  /** All threads stop, one after the other. */
  function Stops(n: nat): seq<Event> {
    if n == 0 then [] else Stops(n - 1) + [Stop(n - 1)]
  }

  lemma {:induction false} StopEmpties(s: System, t: nat)
    requires Consistent(s.q) && |s.hands| == |s.q.fifos| && IsIdle(s, t)
    ensures var s' := StopStep(s, t);
            && s'.hands == s.hands[t := Stopped] && s'.q == CancelAll(s.q, t)
            && |s'.q.fifos| == |s.q.fifos| && s'.q.fifos[t] == []
            && (forall u :: 0 <= u < |s.q.fifos| && u != t ==> s'.q.fifos[u] == s.q.fifos[u])
    decreases |s.q.fifos[t]|
  {
    if s.q.fifos[t] != [] {
      PopNeverFails(s.q, t);
      PopConsistent(s.q, t);
      var next := ReportStep(GiveUpStep(TakeStep(s, t), t), t);
      assert next.hands == s.hands;
      StopEmpties(next, t);
    }
  }

  ghost predicate StoppedBelow(s: System, n: nat) {
    && |s.hands| == |s.q.fifos| && Consistent(s.q)
    && (forall t :: 0 <= t < |s.hands| ==> s.hands[t] == if t < n then Stopped else Idle)
    && (forall t :: 0 <= t < |s.hands| && t < n ==> s.q.fifos[t] == [])
  }

  lemma {:induction false} StopAcceptsNothing(s: System, t: nat)
    ensures StopStep(s, t).log.accepted == s.log.accepted
    decreases if t < |s.q.fifos| then |s.q.fifos[t]| else 0
  {
    if IsIdle(s, t) && CanPop(s.q, t) {
      StopAcceptsNothing(ReportStep(GiveUpStep(TakeStep(s, t), t), t), t);
    }
  }

  ghost predicate StoppedSofar(s: System, n: nat, size: nat, accepted: seq<Request>, k: Ticket) {
    StoppedBelow(s, n) && Conserved(s, k) && |s.hands| == size && s.log.accepted == accepted
  }

  lemma StopNext(s: System, n: nat, size: nat, accepted: seq<Request>, k: Ticket)
    requires n < size && StoppedSofar(s, n, size, accepted, k)
    ensures StoppedSofar(StopStep(s, n), n + 1, size, accepted, k)
  {
    StopEmpties(s, n);
    StopConserves(s, n, k);
    StopKeepsQueue(s, n);
    StopAcceptsNothing(s, n);
  }

  function AllStopped(s: System, n: nat): System {
    if n == 0 then s else StopStep(AllStopped(s, n - 1), n - 1)
  }

  lemma {:induction false} StopsAreRun(cfg: Config, s: System, n: nat)
    requires cfg.params.chunkSize > 0
    ensures Run(cfg, s, Stops(n)) == AllStopped(s, n)
  {
    if n > 0 {
      StopsAreRun(cfg, s, n - 1);
      assert Stops(n)[..|Stops(n)| - 1] == Stops(n - 1);
    }
  }

  lemma {:induction false} StopsStop(s: System, n: nat, size: nat, accepted: seq<Request>, k: Ticket)
    requires n <= size && StoppedSofar(s, 0, size, accepted, k)
    ensures StoppedSofar(AllStopped(s, n), n, size, accepted, k)
  {
    if n > 0 {
      StopsStop(s, n - 1, size, accepted, k);
      StopNext(AllStopped(s, n - 1), n - 1, size, accepted, k);
    }
  }

  /**
   From any reachable state in which the threads have finished what they held, stopping them
   leaves no callback behind: each accepted one has been run exactly once, or dropped with
   its block.
   */
  lemma ShutdownReportsAll(cfg: Config, s: System, events: seq<Event>, k: Ticket)
    requires cfg.params.chunkSize > 0 && Initial(s)
    requires var r := Run(cfg, s, events); forall t :: 0 <= t < |r.hands| ==> r.hands[t].Idle?
    ensures var r := Run(cfg, s, events);
            var f := Run(cfg, r, Stops(|r.hands|));
            f.q.table == map[] && Asked(r.log.accepted, k) == Reported(f.log.reports, k) + Reported(f.log.dropped, k)
  {
    var r := Run(cfg, s, events);
    QueueAlwaysConsistent(cfg, s, events);
    CallbacksConserved(cfg, s, events, k);
    StopsStop(r, |r.hands|, |r.hands|, r.log.accepted, k);
    StopsAreRun(cfg, r, |r.hands|);
    var f := Run(cfg, r, Stops(|r.hands|));
    forall p ensures p !in f.q.table {
      assert QueuedOnce(f.q, p);
      NothingQueued(f.q.fifos, p);
    }
    NothingHeld(f.hands, k);
  }

  // ----- The chunk lock -----

  ghost predicate Working(s: System, t: int, chunk: Pos) {
    0 <= t < |s.hands| && s.hands[t].Generating? && s.hands[t].chunk == chunk
  }

  /**
   Whoever generates a chunk has it claimed, alone; the other claims are leftovers for
   chunks too far out to be generated at all.
   */
  ghost predicate LockHeld(cfg: Config, s: System)
    requires cfg.params.chunkSize > 0
  {
    && (forall t, c :: Working(s, t, c) ==>
          c in s.m.inProgress && Generatable(c, cfg.params)
          && c == ContainingChunk(s.hands[t].pos, cfg.params.chunkSize))
    && (forall t, u, c :: Working(s, t, c) && Working(s, u, c) ==> t == u)
    && (forall c :: c in s.m.inProgress && Generatable(c, cfg.params) ==> exists t :: Working(s, t, c))
  }

  /** Changing one hand to or from anything but generating. */
  lemma OtherHand(s: System, s': System, t: nat)
    requires t < |s.hands| && |s'.hands| == |s.hands|
             && (forall u :: 0 <= u < |s.hands| && u != t ==> s'.hands[u] == s.hands[u])
    ensures forall u, c :: u != t ==> (Working(s', u, c) <==> Working(s, u, c))
  {
  }

  lemma FetchKeepsLock(cfg: Config, s: System, t: nat)
    requires cfg.params.chunkSize > 0 && LockHeld(cfg, s)
    ensures LockHeld(cfg, FetchStep(cfg, s, t))
  {
    var s' := FetchStep(cfg, s, t);
    if t < |s.hands| && s.hands[t].Holding? {
      OtherHand(s, s', t);
      forall c | c in s'.m.inProgress && Generatable(c, cfg.params) ensures exists u :: Working(s', u, c) {
        if c in s.m.inProgress {
          var u :| Working(s, u, c);
          assert Working(s', u, c);
        } else {
          assert Working(s', t, c);
        }
      }
    }
  }

  lemma FinishKeepsLock(cfg: Config, s: System, t: nat)
    requires cfg.params.chunkSize > 0 && LockHeld(cfg, s)
    ensures LockHeld(cfg, FinishStep(cfg, s, t))
  {
    var s' := FinishStep(cfg, s, t);
    if t < |s.hands| && s.hands[t].Generating? {
      OtherHand(s, s', t);
      assert Working(s, t, s.hands[t].chunk);
      forall c | c in s'.m.inProgress && Generatable(c, cfg.params) ensures exists u :: Working(s', u, c) {
        var u :| Working(s, u, c);
        assert Working(s', u, c);
      }
    }
  }

  /** A step that touches neither generating hands nor the claims. */
  lemma LockUntouched(cfg: Config, s: System, s': System)
    requires cfg.params.chunkSize > 0 && LockHeld(cfg, s)
    requires s'.m.inProgress == s.m.inProgress && |s'.hands| == |s.hands|
    requires forall t :: 0 <= t < |s.hands| && (s.hands[t].Generating? || s'.hands[t].Generating?) ==>
               s'.hands[t] == s.hands[t]
    ensures LockHeld(cfg, s')
  {
    assert forall t, c :: Working(s', t, c) <==> Working(s, t, c);
  }

  lemma {:induction false} StopTouchesNoLock(s: System, t: nat)
    ensures var s' := StopStep(s, t);
            && s'.m == s.m && |s'.hands| == |s.hands| && s'.log.started == s.log.started
            && s'.log.unloaded == s.log.unloaded
            && (forall u :: 0 <= u < |s.hands| && (s.hands[u].Generating? || s'.hands[u].Generating?) ==>
                  s'.hands[u] == s.hands[u])
    decreases if t < |s.q.fifos| then |s.q.fifos[t]| else 0
  {
    if IsIdle(s, t) && CanPop(s.q, t) {
      StopTouchesNoLock(ReportStep(GiveUpStep(TakeStep(s, t), t), t), t);
    }
  }

  lemma StepKeepsLock(cfg: Config, s: System, e: Event)
    requires cfg.params.chunkSize > 0 && LockHeld(cfg, s)
    ensures LockHeld(cfg, Step(cfg, s, e))
  {
    match e
    case Fetch(t) => FetchKeepsLock(cfg, s, t);
    case Finish(t) => FinishKeepsLock(cfg, s, t);
    case Stop(t) => StopTouchesNoLock(s, t); LockUntouched(cfg, s, StopStep(s, t));
    case _ => LockUntouched(cfg, s, Step(cfg, s, e));
  }

  lemma {:induction false} LockAlwaysHeld(cfg: Config, s: System, events: seq<Event>)
    requires cfg.params.chunkSize > 0 && Initial(s)
    ensures LockHeld(cfg, Run(cfg, s, events))
  {
    if events != [] {
      LockAlwaysHeld(cfg, s, events[..|events| - 1]);
      StepKeepsLock(cfg, Run(cfg, s, events[..|events| - 1]), events[|events| - 1]);
    }
  }

  /** No block is ever in the interior of two chunks being generated at once. */
  lemma NoTwoGenerateOneBlock(cfg: Config, s: System, events: seq<Event>, t: int, u: int, p: Pos)
    requires cfg.params.chunkSize > 0 && Initial(s)
    requires var r := Run(cfg, s, events);
             && 0 <= t < |r.hands| && 0 <= u < |r.hands| && r.hands[t].Generating? && r.hands[u].Generating?
             && InChunk(p, r.hands[t].chunk, cfg.params.chunkSize) && InChunk(p, r.hands[u].chunk, cfg.params.chunkSize)
    ensures t == u
  {
    var r := Run(cfg, s, events);
    LockAlwaysHeld(cfg, s, events);
    assert Working(r, t, r.hands[t].chunk) && Working(r, u, r.hands[u].chunk);
    ChunksPartition(p, r.hands[t].pos, cfg.params.chunkSize);
    ChunksPartition(p, r.hands[u].pos, cfg.params.chunkSize);
  }

  /**
   The leftover claims do no harm: a generation can start exactly when nobody is generating
   the chunk and it lies within the limits.
   */
  lemma StartsUnlessTaken(cfg: Config, s: System, events: seq<Event>, pos: Pos)
    requires cfg.params.chunkSize > 0 && Initial(s)
    ensures var r := Run(cfg, s, events); var chunk := ContainingChunk(pos, cfg.params.chunkSize);
            chunk !in r.m.inProgress && Generatable(chunk, cfg.params)
            <==> (forall t :: !Working(r, t, chunk)) && Generatable(chunk, cfg.params)
  {
    LockAlwaysHeld(cfg, s, events);
  }

  lemma StepKeepsLeftover(cfg: Config, s: System, e: Event, chunk: Pos)
    requires cfg.params.chunkSize > 0 && LockHeld(cfg, s)
    requires chunk in s.m.inProgress && !Generatable(chunk, cfg.params)
    ensures chunk in Step(cfg, s, e).m.inProgress
  {
    match e
    case Finish(t) => if t < |s.hands| && s.hands[t].Generating? { assert Working(s, t, s.hands[t].chunk); }
    case Stop(t) => StopTouchesNoLock(s, t);
    case _ =>
  }

  /** A claim on a chunk too far out, once made in a run, is still there however the run goes on. */
  lemma {:induction false} LeftoverStays(cfg: Config, s: System, events: seq<Event>, more: seq<Event>, chunk: Pos)
    requires cfg.params.chunkSize > 0 && Initial(s)
    requires chunk in Run(cfg, s, events).m.inProgress && !Generatable(chunk, cfg.params)
    ensures chunk in Run(cfg, s, events + more).m.inProgress
  {
    if more == [] {
      assert events + more == events;
    } else {
      var sofar := events + more[..|more| - 1];
      LeftoverStays(cfg, s, events, more[..|more| - 1], chunk);
      assert (events + more)[..|events + more| - 1] == sofar;
      LockAlwaysHeld(cfg, s, sofar);
      StepKeepsLeftover(cfg, Run(cfg, s, sofar), more[|more| - 1], chunk);
    }
  }
}
