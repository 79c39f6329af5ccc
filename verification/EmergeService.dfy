/** Progress: a thread left to run serves what is queued for it, one block after the other. */
module EmergeService {
  import opened Common
  import opened EmergeQueue
  import opened ChunkLock
  import opened EmergeRuns
  import opened EmergeSafety

  // ----- One block -----

  /** How a block is got while the map is `m`: from memory, from disk, by generating it, or not at all. */
  ghost predicate Truthful(m: MapState, params: MapParams, pos: Pos, allowGen: bool, action: Action)
    requires params.chunkSize > 0
  {
    var chunk := ContainingChunk(pos, params.chunkSize);
    action == if pos in m.generated && pos in m.inMemory then FromMemory
              else if pos in m.generated && pos in m.onDisk then FromDisk
              else if allowGen && chunk !in m.inProgress && Generatable(chunk, params) then Generated
              else Cancelled
  }

  /** The front block of thread `t` has been dealt with, and nothing else has happened to the queue. */
  ghost predicate Served(cfg: Config, s: System, s': System, t: nat)
    requires cfg.params.chunkSize > 0 && t < |s.q.fifos| && s.q.fifos[t] != [] && s.q.fifos[t][0] in s.q.table
  {
    var pos := s.q.fifos[t][0];
    var e := s.q.table[pos];
    && s'.q.table == s.q.table - {pos} && s'.q.fifos == s.q.fifos[t := s.q.fifos[t][1..]] && s'.hands == s.hands
    && (OverMaxLimit(pos) ==>
          s'.log.reports == s.log.reports && s'.log.dropped == s.log.dropped + [Report(pos, e.callbacks, Cancelled)])
    && (!OverMaxLimit(pos) ==>
          s'.log.dropped == s.log.dropped && s'.log.reports != []
          && var r := s'.log.reports[|s'.log.reports| - 1];
             && s'.log.reports == s.log.reports + [r] && r.pos == pos && r.callbacks == e.callbacks
             && Truthful(s.m, cfg.params, pos, AllowGen in e.flags, r.action)
             && (r.action != Cancelled ==> pos in s'.m.generated && pos in s'.m.inMemory))
  }

  /** A thread takes a block, gets it, finishes its generation if need be, and runs the callbacks. */
  function Round(t: nat): seq<Event> {
    [Take(t), Event.Fetch(t), Finish(t), RunCallbacks(t)]
  }

  ghost function AfterRound(cfg: Config, s: System, t: nat): System
    requires cfg.params.chunkSize > 0
  {
    ReportStep(FinishStep(cfg, FetchStep(cfg, TakeStep(s, t), t), t), t)
  }

  lemma RunOneMore(cfg: Config, s: System, events: seq<Event>, e: Event)
    requires cfg.params.chunkSize > 0
    ensures Run(cfg, s, events + [e]) == Step(cfg, Run(cfg, s, events), e)
  {
    assert (events + [e])[..|events|] == events;
  }

  lemma RunRound(cfg: Config, s: System, events: seq<Event>, t: nat)
    requires cfg.params.chunkSize > 0
    ensures Run(cfg, s, events + Round(t)) == AfterRound(cfg, Run(cfg, s, events), t)
  {
    var one := events + [Take(t)];
    var two := one + [Event.Fetch(t)];
    var three := two + [Finish(t)];
    assert events + Round(t) == three + [RunCallbacks(t)];
    RunOneMore(cfg, s, events, Take(t));
    RunOneMore(cfg, s, one, Event.Fetch(t));
    RunOneMore(cfg, s, two, Finish(t));
    RunOneMore(cfg, s, three, RunCallbacks(t));
  }

  lemma RoundServes(cfg: Config, s: System, t: nat)
    requires cfg.params.chunkSize > 0 && IsIdle(s, t) && CanPop(s.q, t)
    ensures Served(cfg, s, AfterRound(cfg, s, t), t)
  {
    var pos := s.q.fifos[t][0];
    FetchOutcome(s.m, pos, AllowGen in s.q.table[pos].flags, cfg.params);
    ChunksPartition(pos, pos, cfg.params.chunkSize);
    assert s.hands[t := Idle] == s.hands;
  }

  /**
   In every reachable state, an idle thread that is left to run serves the front of its queue
   in one round: all callbacks of the block are run, and are told truly what became of it.
   */
  lemma FrontIsServed(cfg: Config, s: System, events: seq<Event>, t: nat)
    requires cfg.params.chunkSize > 0 && Initial(s)
    requires var r := Run(cfg, s, events); IsIdle(r, t) && t < |r.q.fifos| && r.q.fifos[t] != []
    ensures var r := Run(cfg, s, events);
            r.q.fifos[t][0] in r.q.table && Served(cfg, r, Run(cfg, s, events + Round(t)), t)
  {
    QueueAlwaysConsistent(cfg, s, events);
    RunRound(cfg, s, events, t);
    RoundServes(cfg, Run(cfg, s, events), t);
  }

  // ----- The whole queue of a thread -----

  function Rounds(t: nat, n: nat): seq<Event> {
    if n == 0 then [] else Rounds(t, n - 1) + Round(t)
  }

  /** The callbacks kept for a block have been run since, unless the block is too far out. */
  ghost predicate ReportedSince(s: System, s': System, pos: Pos) {
    && pos in s.q.table
    && (OverMaxLimit(pos)
        || exists i :: |s.log.reports| <= i < |s'.log.reports| && s'.log.reports[i].pos == pos
                       && s'.log.reports[i].callbacks == s.q.table[pos].callbacks)
  }

  /** Thread `t` has served the first `n` blocks of its queue; the others are as they were. */
  ghost predicate ServedFirst(s: System, s': System, t: nat, n: nat)
    requires t < |s.q.fifos| && n <= |s.q.fifos[t]|
  {
    && IsIdle(s', t) && t < |s'.q.fifos| && s'.q.fifos[t] == s.q.fifos[t][n..] && s.log.reports <= s'.log.reports
    && (forall k :: 0 <= k < n ==> ReportedSince(s, s', s.q.fifos[t][k]))
    && (forall k :: n <= k < |s.q.fifos[t]| ==>
          && s.q.fifos[t][k] in s.q.table && s.q.fifos[t][k] in s'.q.table
          && s'.q.table[s.q.fifos[t][k]] == s.q.table[s.q.fifos[t][k]])
  }

  lemma QueuedApart(q: Queue, t: nat, k: nat, l: nat)
    requires Consistent(q) && t < |q.fifos| && k < |q.fifos[t]| && l < |q.fifos[t]|
    ensures q.fifos[t][k] in q.table
    ensures k != l ==> q.fifos[t][k] != q.fifos[t][l]
  {
    var p := q.fifos[t][k];
    QueuedExactlyOnce(q, p);
    assert Sits(q.fifos, t, k, p);
    if q.fifos[t][l] == p {
      assert Sits(q.fifos, t, l, p);
    }
  }

  lemma ServeNone(s: System, t: nat)
    requires Consistent(s.q) && IsIdle(s, t) && t < |s.q.fifos|
    ensures ServedFirst(s, s, t, 0)
  {
    assert s.q.fifos[t][0..] == s.q.fifos[t];
    forall k | 0 <= k < |s.q.fifos[t]| ensures s.q.fifos[t][k] in s.q.table {
      QueuedApart(s.q, t, k, k);
    }
  }

  lemma ServeNext(cfg: Config, s: System, mid: System, s': System, t: nat, n: nat)
    requires cfg.params.chunkSize > 0 && Consistent(s.q)
    requires t < |s.q.fifos| && n < |s.q.fifos[t]| && ServedFirst(s, mid, t, n)
    requires mid.q.fifos[t][0] in mid.q.table && Served(cfg, mid, s', t)
    ensures ServedFirst(s, s', t, n + 1)
  {
    var f := s.q.fifos[t];
    var pos := f[n];
    assert mid.q.fifos[t][0] == pos && mid.q.fifos[t][1..] == f[n + 1..];
    if !OverMaxLimit(pos) {
      assert s'.log.reports[|s'.log.reports| - 1].pos == pos;
    }
    forall k | 0 <= k < n ensures ReportedSince(s, s', f[k]) {
      assert ReportedSince(s, mid, f[k]);
      if !OverMaxLimit(f[k]) {
        var i :| |s.log.reports| <= i < |mid.log.reports| && mid.log.reports[i].pos == f[k]
                 && mid.log.reports[i].callbacks == s.q.table[f[k]].callbacks;
        assert s'.log.reports[i] == mid.log.reports[i];
      }
    }
    forall k | n < k < |f| ensures f[k] in s'.q.table && s'.q.table[f[k]] == s.q.table[f[k]] {
      QueuedApart(s.q, t, k, n);
    }
  }

  /**
   In every reachable state, an idle thread that is left to run serves all that is queued for
   it, in order: the callbacks of every block that is not too far out are run.
   */
  lemma {:induction false} QueueIsServed(cfg: Config, s: System, events: seq<Event>, t: nat, n: nat)
    requires cfg.params.chunkSize > 0 && Initial(s)
    requires var r := Run(cfg, s, events); IsIdle(r, t) && t < |r.q.fifos| && n <= |r.q.fifos[t]|
    ensures ServedFirst(Run(cfg, s, events), Run(cfg, s, events + Rounds(t, n)), t, n)
    decreases n
  {
    var r := Run(cfg, s, events);
    QueueAlwaysConsistent(cfg, s, events);
    if n == 0 {
      assert events + Rounds(t, 0) == events;
      ServeNone(r, t);
    } else {
      var sofar := events + Rounds(t, n - 1);
      QueueIsServed(cfg, s, events, t, n - 1);
      FrontIsServed(cfg, s, sofar, t);
      assert events + Rounds(t, n) == sofar + Round(t);
      ServeNext(cfg, r, Run(cfg, s, sofar), Run(cfg, s, sofar + Round(t)), t, n - 1);
    }
  }
}
