/**
 The emerge protocol as a whole: any number of threads and requests, interleaved in any
 order, each critical section being one step.  What holds after every run.
 */
module EmergeRuns {
  import opened Common
  import opened EmergeQueue
  import opened ChunkLock

  /** What a thread is doing between its critical sections. */
  datatype Hand =
    | Stopped
    | Idle
    | Holding(pos: Pos, entry: Entry)
    | Generating(pos: Pos, entry: Entry, chunk: Pos)
    | Reporting(pos: Pos, entry: Entry, action: Action)

  datatype Report = Report(pos: Pos, callbacks: seq<Callback>, action: Action)

  /** History: what was asked, reported or dropped, and which chunks were started. */
  datatype History = History(
    pending: map<Pos, seq<Request>>,
    accepted: seq<Request>,
    reports: seq<Report>,
    dropped: seq<Report>,
    started: seq<Pos>,
    unloaded: bool)

  datatype System = System(q: Queue, hands: seq<Hand>, m: MapState, log: History)

  datatype Config = Config(limits: Limits, params: MapParams)

  datatype Event =
    | Submit(request: Request)
    | Take(t: nat)
    | Fetch(t: nat)
    | Finish(t: nat)
    | RunCallbacks(t: nat)
    | Stop(t: nat)
    | Start(t: nat)
    | Unload(pos: Pos)

  // ----- Steps -----

  function SubmitStep(cfg: Config, s: System, r: Request): System
    requires |s.q.fifos| > 0
  {
    var s' := s.(q := Enqueue(s.q, cfg.limits, r));
    if Refused(s.q, cfg.limits, r) then s'
    else
      var before := if r.pos in s.q.table && r.pos in s.log.pending then s.log.pending[r.pos] else [];
      s'.(log := s.log.(accepted := s.log.accepted + [r], pending := s.log.pending[r.pos := before + [r]]))
  }

  predicate IsIdle(s: System, t: nat) {
    t < |s.hands| && s.hands[t].Idle?
  }

  /** An idle thread takes the front of its queue. */
  function TakeStep(s: System, t: nat): System {
    if IsIdle(s, t) && CanPop(s.q, t) then
      var pos := s.q.fifos[t][0];
      s.(q := Pop(s.q, t), hands := s.hands[t := Holding(pos, s.q.table[pos])],
         log := s.log.(pending := s.log.pending - {pos}))
    else s
  }

  /** A block too far out is dropped; otherwise it is fetched, or its generation started. */
  ghost function FetchStep(cfg: Config, s: System, t: nat): System
    requires cfg.params.chunkSize > 0
  {
    if t < |s.hands| && s.hands[t].Holding? then
      var h := s.hands[t];
      if OverMaxLimit(h.pos) then
        s.(hands := s.hands[t := Idle],
           log := s.log.(dropped := s.log.dropped + [Report(h.pos, h.entry.callbacks, Cancelled)]))
      else
        var f := ChunkLock.Fetch(s.m, h.pos, AllowGen in h.entry.flags, cfg.params);
        if f.action != Generated then s.(m := f.m, hands := s.hands[t := Reporting(h.pos, h.entry, f.action)])
        else
          var chunk := ContainingChunk(h.pos, cfg.params.chunkSize);
          s.(m := f.m, hands := s.hands[t := Generating(h.pos, h.entry, chunk)],
             log := s.log.(started := s.log.started + [chunk]))
    else s
  }

  ghost function FinishStep(cfg: Config, s: System, t: nat): System {
    if t < |s.hands| && s.hands[t].Generating? then
      var h := s.hands[t];
      var m := Release(s.m, h.chunk, cfg.params);
      s.(m := m, hands := s.hands[t := Reporting(h.pos, h.entry, if h.pos in m.inMemory then Generated else Errored)])
    else s
  }

  function ReportStep(s: System, t: nat): System {
    if t < |s.hands| && s.hands[t].Reporting? then
      var h := s.hands[t];
      s.(hands := s.hands[t := Idle],
         log := s.log.(reports := s.log.reports + [Report(h.pos, h.entry.callbacks, h.action)]))
    else s
  }

  /** A held block is to be reported as cancelled. */
  function GiveUpStep(s: System, t: nat): System {
    if t < |s.hands| && s.hands[t].Holding? then
      s.(hands := s.hands[t := Reporting(s.hands[t].pos, s.hands[t].entry, Cancelled)])
    else s
  }

  /** A thread that stops cancels all it has queued. */
  function StopStep(s: System, t: nat): System
    decreases if t < |s.q.fifos| then |s.q.fifos[t]| else 0
  {
    if !IsIdle(s, t) then s
    else if CanPop(s.q, t) then StopStep(ReportStep(GiveUpStep(TakeStep(s, t), t), t), t)
    else s.(hands := s.hands[t := Stopped])
  }

  function StartStep(s: System, t: nat): System {
    if t < |s.hands| && s.hands[t].Stopped? then s.(hands := s.hands[t := Idle]) else s
  }

  /** A block is saved and leaves memory; the history notes if it belongs to a chunk in progress. */
  ghost function UnloadStep(cfg: Config, s: System, p: Pos): System
    requires cfg.params.chunkSize > 0
  {
    if p !in s.m.inMemory then s
    else
      s.(m := s.m.(inMemory := s.m.inMemory - {p}, onDisk := s.m.onDisk + {p}),
         log := s.log.(unloaded := s.log.unloaded || ContainingChunk(p, cfg.params.chunkSize) in s.m.inProgress))
  }

  ghost function Step(cfg: Config, s: System, e: Event): System
    requires cfg.params.chunkSize > 0
  {
    match e
    case Submit(r) => if |s.q.fifos| > 0 then SubmitStep(cfg, s, r) else s
    case Take(t) => TakeStep(s, t)
    case Fetch(t) => FetchStep(cfg, s, t)
    case Finish(t) => FinishStep(cfg, s, t)
    case RunCallbacks(t) => ReportStep(s, t)
    case Stop(t) => StopStep(s, t)
    case Start(t) => StartStep(s, t)
    case Unload(p) => UnloadStep(cfg, s, p)
  }

  ghost function Run(cfg: Config, s: System, events: seq<Event>): System
    requires cfg.params.chunkSize > 0
  {
    if events == [] then s else Step(cfg, Run(cfg, s, events[..|events| - 1]), events[|events| - 1])
  }

  /** No requests yet, on any map in which no chunk is in progress and generated blocks exist. */
  ghost predicate Initial(s: System) {
    && |s.q.fifos| > 0 && s.q.table == map[] && s.q.peers == map[]
    && (forall t :: 0 <= t < |s.q.fifos| ==> s.q.fifos[t] == [])
    && |s.hands| == |s.q.fifos| && (forall t :: 0 <= t < |s.hands| ==> s.hands[t].Idle?)
    && s.m.inProgress == {} && s.m.generated <= s.m.inMemory + s.m.onDisk
    && s.log == History(map[], [], [], [], [], false)
  }

  // ----- Callbacks -----

  /** One callback for one block. */
  datatype Ticket = Ticket(pos: Pos, callback: Callback)

  ghost function Occurrences(callbacks: seq<Callback>, c: Callback): nat {
    multiset(callbacks)[c]
  }

  ghost function Asked(rs: seq<Request>, k: Ticket): nat {
    if rs == [] then 0
    else
      var r := rs[|rs| - 1];
      Asked(rs[..|rs| - 1], k) + (if r.pos == k.pos && r.callback == Some(k.callback) then 1 else 0)
  }

  ghost function Reported(reports: seq<Report>, k: Ticket): nat {
    if reports == [] then 0
    else
      var d := reports[|reports| - 1];
      Reported(reports[..|reports| - 1], k) + (if d.pos == k.pos then Occurrences(d.callbacks, k.callback) else 0)
  }

  ghost function InTable(table: map<Pos, Entry>, k: Ticket): nat {
    if k.pos in table then Occurrences(table[k.pos].callbacks, k.callback) else 0
  }

  ghost function InHand(h: Hand, k: Ticket): nat {
    if !h.Stopped? && !h.Idle? && h.pos == k.pos then Occurrences(h.entry.callbacks, k.callback) else 0
  }

  ghost function InHands(hands: seq<Hand>, k: Ticket): nat {
    if hands == [] then 0 else InHands(hands[..|hands| - 1], k) + InHand(hands[|hands| - 1], k)
  }

  /** Every accepted callback is in the table, in one thread's hands, reported or dropped. */
  ghost predicate Conserved(s: System, k: Ticket) {
    Asked(s.log.accepted, k) ==
    InTable(s.q.table, k) + InHands(s.hands, k) + Reported(s.log.reports, k) + Reported(s.log.dropped, k)
  }

  lemma {:induction false} HandsUpdate(hands: seq<Hand>, t: nat, h: Hand, k: Ticket)
    requires t < |hands|
    ensures InHands(hands[t := h], k) + InHand(hands[t], k) == InHands(hands, k) + InHand(h, k)
  {
    var last := |hands| - 1;
    if t < last {
      HandsUpdate(hands[..last], t, h, k);
      assert hands[t := h][..last] == hands[..last][t := h];
    } else {
      assert hands[t := h][..last] == hands[..last];
    }
  }

  lemma ReportedOneMore(reports: seq<Report>, d: Report, k: Ticket)
    ensures Reported(reports + [d], k) ==
            Reported(reports, k) + (if d.pos == k.pos then Occurrences(d.callbacks, k.callback) else 0)
  {
    assert (reports + [d])[..|reports|] == reports;
  }

  lemma OneMoreCallback(cs: seq<Callback>, c: Option<Callback>, x: Callback)
    ensures Occurrences(cs + CallbackList(c), x) == Occurrences(cs, x) + (if c == Some(x) then 1 else 0)
  {
  }

  /** The callbacks kept for a block once a request has been accepted. */
  lemma EnqueueKeepsCallbacks(q: Queue, limits: Limits, r: Request, k: Ticket)
    requires |q.fifos| > 0 && !Refused(q, limits, r)
    ensures InTable(Enqueue(q, limits, r).table, k) ==
            InTable(q.table, k) + (if r.pos == k.pos && r.callback == Some(k.callback) then 1 else 0)
  {
    if r.pos in q.table {
      OneMoreCallback(q.table[r.pos].callbacks, r.callback, k.callback);
    }
  }

  lemma SubmitConserves(cfg: Config, s: System, r: Request, k: Ticket)
    requires |s.q.fifos| > 0 && Conserved(s, k)
    ensures Conserved(SubmitStep(cfg, s, r), k)
  {
    if Refused(s.q, cfg.limits, r) {
      assert Enqueue(s.q, cfg.limits, r).table == s.q.table;
    } else {
      EnqueueKeepsCallbacks(s.q, cfg.limits, r, k);
      assert (s.log.accepted + [r])[..|s.log.accepted|] == s.log.accepted;
    }
  }

  lemma TakeConserves(s: System, t: nat, k: Ticket)
    requires Conserved(s, k)
    ensures Conserved(TakeStep(s, t), k)
  {
    if IsIdle(s, t) && CanPop(s.q, t) {
      HandsUpdate(s.hands, t, TakeStep(s, t).hands[t], k);
    }
  }

  /** A thread moves on with the same entry in hand. */
  lemma SameEntryConserves(s: System, s': System, t: nat, h: Hand, k: Ticket)
    requires Conserved(s, k) && t < |s.hands| && s'.hands == s.hands[t := h] && InHand(h, k) == InHand(s.hands[t], k)
    requires s'.q == s.q && s'.log.accepted == s.log.accepted && s'.log.reports == s.log.reports
             && s'.log.dropped == s.log.dropped
    ensures Conserved(s', k)
  {
    HandsUpdate(s.hands, t, h, k);
  }

  lemma FetchConserves(cfg: Config, s: System, t: nat, k: Ticket)
    requires cfg.params.chunkSize > 0 && Conserved(s, k)
    ensures Conserved(FetchStep(cfg, s, t), k)
  {
    if t < |s.hands| && s.hands[t].Holding? {
      var h := s.hands[t];
      if OverMaxLimit(h.pos) {
        HandsUpdate(s.hands, t, Idle, k);
        ReportedOneMore(s.log.dropped, Report(h.pos, h.entry.callbacks, Cancelled), k);
      } else {
        var f := ChunkLock.Fetch(s.m, h.pos, AllowGen in h.entry.flags, cfg.params);
        var next := if f.action != Generated then Reporting(h.pos, h.entry, f.action)
                    else Generating(h.pos, h.entry, ContainingChunk(h.pos, cfg.params.chunkSize));
        SameEntryConserves(s, FetchStep(cfg, s, t), t, next, k);
      }
    }
  }

  lemma FinishConserves(cfg: Config, s: System, t: nat, k: Ticket)
    requires Conserved(s, k)
    ensures Conserved(FinishStep(cfg, s, t), k)
  {
    if t < |s.hands| && s.hands[t].Generating? {
      HandsUpdate(s.hands, t, FinishStep(cfg, s, t).hands[t], k);
    }
  }

  lemma ReportConserves(s: System, t: nat, k: Ticket)
    requires Conserved(s, k)
    ensures Conserved(ReportStep(s, t), k)
  {
    if t < |s.hands| && s.hands[t].Reporting? {
      var h := s.hands[t];
      HandsUpdate(s.hands, t, Idle, k);
      ReportedOneMore(s.log.reports, Report(h.pos, h.entry.callbacks, h.action), k);
    }
  }

  lemma {:induction false} StopConserves(s: System, t: nat, k: Ticket)
    requires Conserved(s, k)
    ensures Conserved(StopStep(s, t), k)
    decreases if t < |s.q.fifos| then |s.q.fifos[t]| else 0
  {
    if IsIdle(s, t) {
      if CanPop(s.q, t) {
        var taken := TakeStep(s, t);
        TakeConserves(s, t, k);
        HandsUpdate(taken.hands, t, GiveUpStep(taken, t).hands[t], k);
        ReportConserves(GiveUpStep(taken, t), t, k);
        StopConserves(ReportStep(GiveUpStep(taken, t), t), t, k);
      } else {
        HandsUpdate(s.hands, t, Stopped, k);
      }
    }
  }

  lemma StepConserves(cfg: Config, s: System, e: Event, k: Ticket)
    requires cfg.params.chunkSize > 0 && Conserved(s, k)
    ensures Conserved(Step(cfg, s, e), k)
  {
    match e
    case Submit(r) => if |s.q.fifos| > 0 { SubmitConserves(cfg, s, r, k); }
    case Take(t) => TakeConserves(s, t, k);
    case Fetch(t) => FetchConserves(cfg, s, t, k);
    case Finish(t) => FinishConserves(cfg, s, t, k);
    case RunCallbacks(t) => ReportConserves(s, t, k);
    case Stop(t) => StopConserves(s, t, k);
    case Start(t) => if t < |s.hands| { HandsUpdate(s.hands, t, Idle, k); }
    case Unload(p) =>
  }

  lemma {:induction false} NothingHeld(hands: seq<Hand>, k: Ticket)
    requires forall t :: 0 <= t < |hands| ==> hands[t].Idle? || hands[t].Stopped?
    ensures InHands(hands, k) == 0
  {
    if hands != [] {
      NothingHeld(hands[..|hands| - 1], k);
    }
  }

  /**
   In every reachable state each accepted callback is accounted for exactly once: none is
   run twice, and none gets lost except with a dropped block.
   */
  lemma {:induction false} CallbacksConserved(cfg: Config, s: System, events: seq<Event>, k: Ticket)
    requires cfg.params.chunkSize > 0 && Initial(s)
    ensures Conserved(Run(cfg, s, events), k)
  {
    if events == [] {
      NothingHeld(s.hands, k);
    } else {
      CallbacksConserved(cfg, s, events[..|events| - 1], k);
      StepConserves(cfg, Run(cfg, s, events[..|events| - 1]), events[|events| - 1], k);
    }
  }
}
