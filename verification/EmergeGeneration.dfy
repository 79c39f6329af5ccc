/** No chunk is generated twice, as long as none of its blocks is unloaded meanwhile. */
module EmergeGeneration {
  import opened Common
  import opened ChunkLock
  import opened EmergeRuns
  import opened EmergeSafety

  ghost predicate AllIn(chunk: Pos, size: int, blocks: set<Pos>) {
    forall p :: InChunk(p, chunk, size) ==> p in blocks
  }

  ghost predicate Done(cfg: Config, s: System, chunk: Pos) {
    (exists t :: Working(s, t, chunk)) || AllIn(chunk, cfg.params.chunkSize, s.m.generated)
  }

  /**
   The blocks of a chunk in the making are in memory; every chunk ever started is in the
   making or generated as a whole; and no chunk has been started twice.
   */
  ghost predicate StartedOnce(cfg: Config, s: System) {
    && (forall t, c :: Working(s, t, c) ==> AllIn(c, cfg.params.chunkSize, s.m.inMemory))
    && (forall i :: 0 <= i < |s.log.started| ==> Done(cfg, s, s.log.started[i]))
    && (forall i, j :: 0 <= i < j < |s.log.started| ==> s.log.started[i] != s.log.started[j])
  }

  /** Blocks marked as generated exist somewhere. */
  ghost predicate Kept(m: MapState) {
    m.generated <= m.inMemory + m.onDisk
  }

  ghost predicate Sound(cfg: Config, s: System)
    requires cfg.params.chunkSize > 0
  {
    LockHeld(cfg, s) && Kept(s.m) && (!s.log.unloaded ==> StartedOnce(cfg, s))
  }

  /** A chunk that can be claimed has never been started. */
  lemma NeverStarted(cfg: Config, s: System, pos: Pos)
    requires cfg.params.chunkSize > 0 && Sound(cfg, s) && !s.log.unloaded && pos !in s.m.generated
    requires ContainingChunk(pos, cfg.params.chunkSize) !in s.m.inProgress
    ensures ContainingChunk(pos, cfg.params.chunkSize) !in s.log.started
  {
    var chunk := ContainingChunk(pos, cfg.params.chunkSize);
    ChunksPartition(pos, pos, cfg.params.chunkSize);
    assert !AllIn(chunk, cfg.params.chunkSize, s.m.generated);
    assert !Done(cfg, s, chunk);
  }

  lemma FetchSound(cfg: Config, s: System, t: nat)
    requires cfg.params.chunkSize > 0 && Sound(cfg, s)
    ensures Sound(cfg, FetchStep(cfg, s, t))
  {
    FetchKeepsLock(cfg, s, t);
    if t < |s.hands| && s.hands[t].Holding? && !OverMaxLimit(s.hands[t].pos) {
      var h, s' := s.hands[t], FetchStep(cfg, s, t);
      OtherHand(s, s', t);
      assert s'.m.generated == s.m.generated && s.m.inMemory <= s'.m.inMemory;
      if !s.log.unloaded {
        forall c | Done(cfg, s, c) ensures Done(cfg, s', c) {
          if u :| Working(s, u, c) {
            assert Working(s', u, c);
          }
        }
        if s'.hands[t].Generating? {
          NeverStarted(cfg, s, h.pos);
          var chunk := s'.hands[t].chunk;
          assert AllIn(chunk, cfg.params.chunkSize, s'.m.inMemory);
          assert Working(s', t, chunk);
        }
      }
    }
  }

  lemma FinishSound(cfg: Config, s: System, t: nat)
    requires cfg.params.chunkSize > 0 && Sound(cfg, s)
    ensures Sound(cfg, FinishStep(cfg, s, t))
  {
    FinishKeepsLock(cfg, s, t);
    if t < |s.hands| && s.hands[t].Generating? {
      var chunk, s' := s.hands[t].chunk, FinishStep(cfg, s, t);
      OtherHand(s, s', t);
      if !s.log.unloaded {
        assert Working(s, t, chunk);
        assert AllIn(chunk, cfg.params.chunkSize, s'.m.generated);
        forall c | Done(cfg, s, c) ensures Done(cfg, s', c) {
          if u :| Working(s, u, c) && c != chunk {
            assert Working(s', u, c);
          }
        }
      }
    }
  }

  lemma UnloadSound(cfg: Config, s: System, p: Pos)
    requires cfg.params.chunkSize > 0 && Sound(cfg, s)
    ensures Sound(cfg, UnloadStep(cfg, s, p))
  {
    var s' := UnloadStep(cfg, s, p);
    LockUntouched(cfg, s, s');
    assert forall t, c :: Working(s', t, c) <==> Working(s, t, c);
    if !s'.log.unloaded {
      forall t, c | Working(s', t, c) ensures AllIn(c, cfg.params.chunkSize, s'.m.inMemory) {
        assert Working(s, t, c);
        ChunksPartition(p, s.hands[t].pos, cfg.params.chunkSize);
      }
      forall i | 0 <= i < |s.log.started| ensures Done(cfg, s', s.log.started[i]) {
        assert Done(cfg, s, s.log.started[i]);
      }
    }
  }

  lemma UntouchedSound(cfg: Config, s: System, s': System)
    requires cfg.params.chunkSize > 0 && Sound(cfg, s)
    requires s'.m == s.m && |s'.hands| == |s.hands| && s'.log.started == s.log.started
             && s'.log.unloaded == s.log.unloaded
    requires forall t :: 0 <= t < |s.hands| && (s.hands[t].Generating? || s'.hands[t].Generating?) ==>
               s'.hands[t] == s.hands[t]
    ensures Sound(cfg, s')
  {
    LockUntouched(cfg, s, s');
    assert forall t, c :: Working(s', t, c) <==> Working(s, t, c);
    forall c | Done(cfg, s, c) ensures Done(cfg, s', c) {
    }
  }

  lemma StepSound(cfg: Config, s: System, e: Event)
    requires cfg.params.chunkSize > 0 && Sound(cfg, s)
    ensures Sound(cfg, Step(cfg, s, e))
  {
    match e
    case Fetch(t) => FetchSound(cfg, s, t);
    case Finish(t) => FinishSound(cfg, s, t);
    case Unload(p) => UnloadSound(cfg, s, p);
    case Stop(t) => StopTouchesNoLock(s, t); UntouchedSound(cfg, s, StopStep(s, t));
    case _ => UntouchedSound(cfg, s, Step(cfg, s, e));
  }

  lemma {:induction false} AlwaysSound(cfg: Config, s: System, events: seq<Event>)
    requires cfg.params.chunkSize > 0 && Initial(s)
    ensures Sound(cfg, Run(cfg, s, events))
  {
    if events != [] {
      AlwaysSound(cfg, s, events[..|events| - 1]);
      StepSound(cfg, Run(cfg, s, events[..|events| - 1]), events[|events| - 1]);
    }
  }

  /** In a run that unloads no block of a chunk in progress, no chunk is started twice. */
  lemma ChunksGeneratedOnce(cfg: Config, s: System, events: seq<Event>)
    requires cfg.params.chunkSize > 0 && Initial(s)
    ensures var r := Run(cfg, s, events);
            !r.log.unloaded ==> forall i, j :: 0 <= i < j < |r.log.started| ==> r.log.started[i] != r.log.started[j]
  {
    AlwaysSound(cfg, s, events);
  }
}
