/** The emerge manager and its threads as objects; all methods run under the queue mutex. */
module EmergeManager {
  import opened Common
  import opened EmergeQueue

  class EmergeThread {
    var blockQueue: seq<Pos>

    constructor ()
      ensures blockQueue == []
    {
      blockQueue := [];
    }
  }

  class EmergeManager {
    const limits: Limits
    const threads: seq<EmergeThread>
    var blocksEnqueued: map<Pos, Entry>
    var peerQueueCount: map<U16, nat>

    constructor (limits: Limits, threads: seq<EmergeThread>)
      requires |threads| > 0 && forall i, j :: 0 <= i < j < |threads| ==> threads[i] != threads[j]
      requires forall i :: 0 <= i < |threads| ==> threads[i].blockQueue == []
      ensures Valid() && State().table == map[] && State().peers == map[] && this.limits == limits
              && this.threads == threads
      ensures forall i :: 0 <= i < |threads| ==> State().fifos[i] == []
    {
      this.limits := limits;
      this.threads := threads;
      blocksEnqueued := map[];
      peerQueueCount := map[];
    }

    ghost predicate Valid() {
      |threads| > 0 && forall i, j :: 0 <= i < j < |threads| ==> threads[i] != threads[j]
    }

    ghost function Fifos(): (r: seq<seq<Pos>>)
      reads threads
      ensures |r| == |threads| && forall i :: 0 <= i < |threads| ==> r[i] == threads[i].blockQueue
    {
      seq(|threads|, i requires 0 <= i < |threads| reads threads => threads[i].blockQueue)
    }

    ghost function State(): Queue
      reads this, threads
    {
      Queue(blocksEnqueued, peerQueueCount, Fifos())
    }

    /** Reads and, if need be, creates the counter of a peer. */
    method CounterOf(peer: U16) returns (count: nat)
      modifies this`peerQueueCount
      ensures State() == Touched(old(State()), peer) && count == CountOf(old(peerQueueCount), peer)
    {
      if peer !in peerQueueCount {
        peerQueueCount := peerQueueCount[peer := 0];
      }
      count := peerQueueCount[peer];
    }

    method PushBlockEmergeData(r: Request) returns (pushed: bool, existed: bool)
      modifies this
      ensures pushed <==> !Refused(old(State()), limits, r)
      ensures var mine := CountOf(old(peerQueueCount), r.peer);
              pushed <==> ForceQueue in r.flags
                          || (|old(blocksEnqueued)| < limits.total
                              && (if r.peer == NOBODY then 2 * mine < limits.total
                                  else if AllowGen in r.flags then mine < limits.generate
                                  else mine < limits.diskOnly))
      ensures pushed ==> (existed <==> r.pos in old(blocksEnqueued))
      ensures State() == if pushed then Record(Touched(old(State()), r.peer), r) else Touched(old(State()), r.peer)
    {
      existed := false;
      var countPeer := CounterOf(r.peer);
      if ForceQueue !in r.flags {
        if |blocksEnqueued| >= limits.total {
          return false, false;
        }
        if r.peer != NOBODY {
          var limitPeer := if AllowGen in r.flags then limits.generate else limits.diskOnly;
          if countPeer >= limitPeer {
            return false, false;
          }
        } else if countPeer * 2 >= limits.total {
          return false, false;
        }
      }
      existed := r.pos in blocksEnqueued;
      var entry := if existed then blocksEnqueued[r.pos] else Entry(r.peer, {}, []);
      if r.callback.Some? {
        entry := entry.(callbacks := entry.callbacks + [r.callback.value]);
      }
      if existed {
        entry := entry.(flags := entry.flags + r.flags);
      } else {
        entry := entry.(flags := r.flags, peer := r.peer);
        peerQueueCount := peerQueueCount[r.peer := countPeer + 1];
      }
      blocksEnqueued := blocksEnqueued[r.pos := entry];
      pushed := true;
      ghost var recorded := Record(Touched(old(State()), r.peer), r);
      assert recorded.fifos == Fifos();
      assert recorded.peers == peerQueueCount;
      assert entry.callbacks == recorded.table[r.pos].callbacks;
      assert entry == recorded.table[r.pos];
      assert recorded.table == blocksEnqueued;
    }

    /** `holds` is whether the assertion about the counter does. */
    method PopBlockEmergeData(pos: Pos) returns (found: bool, holds: bool, data: Entry)
      modifies this
      ensures found <==> !PopData(old(State()), pos).Missing? && !PopData(old(State()), pos).NoCounter?
      ensures holds <==> !PopData(old(State()), pos).AssertionFails?
      ensures found && holds ==>
                State() == Queue(PopData(old(State()), pos).table, PopData(old(State()), pos).peers, old(Fifos()))
      ensures found && holds ==> data == PopData(old(State()), pos).entry
      ensures !(found && holds) ==> State() == old(State())
    {
      found, holds, data := false, true, Entry(NOBODY, {}, []);
      if pos !in blocksEnqueued {
        return;
      }
      data := blocksEnqueued[pos];
      if data.peer !in peerQueueCount {
        return;
      }
      var count := peerQueueCount[data.peer];
      found, holds := true, count != 0;
      if holds {
        peerQueueCount := peerQueueCount[data.peer := count - 1];
        blocksEnqueued := blocksEnqueued - {pos};
      }
    }

    method GetOptimalThread() returns (index: nat)
      requires Valid()
      ensures index < |threads| && index == Shortest(Fifos())
    {
      index := 0;
      var lowest := |threads[0].blockQueue|;
      var i := 1;
      while i < |threads|
        invariant 1 <= i <= |threads| && index < i && lowest == |Fifos()[index]|
        invariant index == Shortest(Fifos()[..i])
      {
        var n := |threads[i].blockQueue|;
        assert Fifos()[..i + 1][..i] == Fifos()[..i];
        if n < lowest {
          index, lowest := i, n;
        }
        i := i + 1;
      }
      assert Fifos()[..i] == Fifos();
    }

    method EnqueueBlockEmergeEx(r: Request) returns (accepted: bool)
      requires Valid()
      modifies this, threads
      ensures State() == Enqueue(old(State()), limits, r)
      ensures accepted <==> !Refused(old(State()), limits, r)
      ensures Consistent(old(State())) ==> (accepted <==> Admitted(old(blocksEnqueued), limits, r))
    {
      if Consistent(State()) {
        AdmittedIff(State(), limits, r);
      }
      var pushed, existed := PushBlockEmergeData(r);
      if !pushed {
        return false;
      }
      accepted := true;
      if existed {
        return;
      }
      var t := GetOptimalThread();
      threads[t].blockQueue := threads[t].blockQueue + [r.pos];
      assert Fifos() == old(Fifos())[t := old(Fifos())[t] + [r.pos]];
    }

    /** Thread `t` takes the front of its queue, if there is one. */
    method PopBlockEmerge(t: nat) returns (some: bool, holds: bool, pos: Pos, data: Entry)
      requires Valid() && t < |threads|
      modifies this, threads[t]
      ensures some <==> old(threads[t].blockQueue) != []
      ensures !some ==> State() == old(State()) && holds
      ensures some ==> pos == old(threads[t].blockQueue)[0]
      ensures CanPop(old(State()), t) ==> holds && State() == Pop(old(State()), t) && data == old(blocksEnqueued)[pos]
      ensures some && !CanPop(old(State()), t) ==>
                State() == old(State()).(fifos := old(Fifos())[t := old(Fifos())[t][1..]])
    {
      some, holds, pos, data := false, true, Pos(0, 0, 0), Entry(NOBODY, {}, []);
      if threads[t].blockQueue == [] {
        return;
      }
      some := true;
      pos := threads[t].blockQueue[0];
      threads[t].blockQueue := threads[t].blockQueue[1..];
      ghost var fifos := Fifos();
      assert fifos == old(Fifos())[t := old(Fifos())[t][1..]];
      var _, h, d := PopBlockEmergeData(pos);
      holds, data := h, d;
    }

    /** A stopping thread cancels all it still has queued; returns what it took out. */
    method CancelPendingItems(t: nat) returns (cancelled: seq<(Pos, Entry)>)
      requires Valid() && t < |threads| && Consistent(State())
      modifies this, threads[t]
      ensures Consistent(State()) && threads[t].blockQueue == []
      ensures State() == CancelAll(old(State()), t) && cancelled == CancelledBlocks(old(State()), t)
    {
      cancelled := [];
      while threads[t].blockQueue != []
        invariant Consistent(State())
        invariant CancelAll(State(), t) == CancelAll(old(State()), t)
        invariant cancelled + CancelledBlocks(State(), t) == CancelledBlocks(old(State()), t)
        decreases |threads[t].blockQueue|
      {
        PopNeverFails(State(), t);
        PopConsistent(State(), t);
        var _, _, pos, data := PopBlockEmerge(t);
        cancelled := cancelled + [(pos, data)];
      }
    }
  }
}
