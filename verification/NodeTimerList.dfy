/** The list of a block's node timers as the object that is updated in place. */
module NodeTimerLists {
  import opened Common
  import opened NodeTimers
  import opened TimerRuns

  class NodeTimerList {
    var timers: seq<Slot>
    var iterators: map<Pos, nat>
    var nextTriggerTime: real
    var time: real
    var freshId: nat

    constructor ()
      ensures State() == TimerList([], map[], NONE, 0.0, 0)
    {
      timers, iterators, nextTriggerTime, time, freshId := [], map[], NONE, 0.0, 0;
    }

    ghost function State(): TimerList
      reads this
    {
      TimerList(timers, iterators, nextTriggerTime, time, freshId)
    }

    /** The slot an iterator leads to. */
    method Dereference(id: nat) returns (k: nat)
      requires Shape(State())
      ensures k == IndexOf(timers, id)
    {
      k := 0;
      while k < |timers| && timers[k].id != id
        invariant k <= |timers| && forall j :: 0 <= j < k ==> !HasId(timers, j, id)
      {
        k := k + 1;
      }
      if k < |timers| {
        IndexIs(State(), k);
      }
    }

    /** A default timer if there is none; otherwise the timer with its elapsed time. */
    method Get(p: Pos) returns (t: NodeTimer)
      requires Shape(State())
      ensures match DeadlineAt(State(), p)
              case None => t == NodeTimer(0.0, 0.0, Pos(0, 0, 0))
              case Some(d) => t == NodeTimer(d.timeout, d.timeout - (d.at - time), p)
    {
      if p !in iterators {
        return NodeTimer(0.0, 0.0, Pos(0, 0, 0));
      }
      assert Pointed(State(), p);
      var k := Dereference(iterators[p]);
      t := timers[k].timer.(elapsed := timers[k].timer.timeout - (timers[k].trigger - time));
    }

    method Remove(p: Pos)
      requires Shape(State())
      modifies this
      ensures State() == Removed(old(State()), p) && Shape(State())
    {
      RemovedShape(State(), p);
      if p in iterators {
        assert Pointed(State(), p);
        var k := Dereference(iterators[p]);
        var removedTime := timers[k].trigger;
        timers := Without(timers, k);
        iterators := iterators - {p};
        if removedTime == nextTriggerTime {
          nextTriggerTime := if timers == [] then NONE else timers[0].trigger;
        }
      }
    }

    method Insert(t: NodeTimer)
      requires Shape(State()) && t.position !in iterators
      modifies this
      ensures State() == Inserted(old(State()), t) && Shape(State())
    {
      InsertedShape(State(), t);
      var triggerTime := time + (t.timeout - t.elapsed);
      var k: nat := |timers|;
      while k > 0 && timers[k - 1].trigger > triggerTime
        invariant k <= |timers| && forall j :: k <= j < |timers| ==> timers[j].trigger > triggerTime
        modifies {}
      {
        k := k - 1;
      }
      Bounds(k, triggerTime);
      timers := With(timers, k, Slot(freshId, triggerTime, t));
      iterators := iterators[t.position := freshId];
      freshId := freshId + 1;
      if nextTriggerTime == NONE || triggerTime < nextTriggerTime {
        nextTriggerTime := triggerTime;
      }
    }

    lemma Bounds(k: nat, trigger: real)
      requires Shape(State()) && k <= |timers| && (k > 0 ==> timers[k - 1].trigger <= trigger)
      requires forall j :: k <= j < |timers| ==> timers[j].trigger > trigger
      ensures k == UpperBound(timers, trigger)
    {
      var u := UpperBound(timers, trigger);
      forall j | 0 <= j < k - 1 ensures timers[j].trigger <= timers[k - 1].trigger {
        assert InOrder(timers, j, k - 1);
      }
    }

    method SetTimer(t: NodeTimer)
      requires Shape(State())
      modifies this
      ensures State() == Set(old(State()), t) && Shape(State())
    {
      Remove(t.position);
      RemoveRefines(old(State()), t.position, t.position);
      assert Pointed(State(), t.position);
      Insert(t);
    }

    method Clear()
      modifies this
      ensures State() == Cleared(old(State()))
    {
      timers, iterators, nextTriggerTime := [], map[], NONE;
    }

    /** The due timers, in order; they leave the index by position. */
    method CollectDue() returns (elapsed: seq<NodeTimer>, i: nat)
      modifies this`iterators
      ensures i == DueCount(timers, time) && elapsed == FiredTimers(timers, i, time)
      ensures iterators == old(iterators) - Positions(timers[..i])
    {
      elapsed, i := [], 0;
      while i < |timers| && timers[i].trigger <= time
        invariant i <= DueCount(timers, time)
        invariant elapsed == FiredTimers(timers, i, time)
        invariant iterators == old(iterators) - Positions(timers[..i])
      {
        var t := timers[i].timer;
        OneMoreFired(timers, i, time, old(iterators));
        elapsed := elapsed + [t.(elapsed := t.timeout + (time - timers[i].trigger))];
        iterators := iterators - {t.position};
        i := i + 1;
      }
    }

    /** Moves on in time and returns the elapsed timers. */
    method Advance(dtime: real) returns (elapsed: seq<NodeTimer>)
      requires Shape(State())
      modifies this
      ensures Stepped(State(), elapsed) == Step(old(State()), dtime) && Shape(State())
    {
      StepShape(State(), dtime);
      elapsed := [];
      time := time + dtime;
      if nextTriggerTime == NONE || time < nextTriggerTime {
        return;
      }
      var i;
      elapsed, i := CollectDue();
      timers := timers[i..];
      nextTriggerTime := if timers == [] then NONE else timers[0].trigger;
    }

    static lemma OneMoreFired(timers: seq<Slot>, i: nat, time: real, iterators: map<Pos, nat>)
      requires i < |timers|
      ensures FiredTimers(timers, i + 1, time) == FiredTimers(timers, i, time) + [Expired(timers[i], time)]
      ensures iterators - Positions(timers[..i + 1]) == iterators - Positions(timers[..i]) - {timers[i].timer.position}
    {
      OneMorePosition(timers, i);
    }

    static lemma OneMorePosition(timers: seq<Slot>, i: nat)
      requires i < |timers|
      ensures Positions(timers[..i + 1]) == Positions(timers[..i]) + {timers[i].timer.position}
    {
      var more := timers[..i + 1];
      assert forall k :: 0 <= k < i ==> timers[..i][k] == more[k];
      assert more[i] == timers[i];
    }

    /** The number of timers, in 16 bits, and their records in order of deadline. */
    method SerializeV1() returns (count: U16, saved: seq<Saved>)
      ensures count == |timers| % 0x1_0000 && saved == SaveAll(timers, time)
      ensures |saved| == |timers| && forall k :: 0 <= k < |timers| ==> Records(saved[k], timers[k], time)
    {
      count, saved := |timers| % 0x1_0000, [];
      for i := 0 to |timers|
        invariant saved == SaveAll(timers[..i], time)
      {
        var s := timers[i];
        saved := saved + [Saved(Pack(s.timer.position), s.timer.timeout, s.timer.timeout - (s.trigger - time))];
      }
      assert timers[..|timers|] == timers;
      forall k | 0 <= k < |timers| ensures Records(saved[k], timers[k], time) {
        SaveRecords(timers[k], time);
      }
    }

    /**
     Reads `count` records; past the end of the stream they read as zero and are ignored.  One
     in which the stream ends counts as a record too, its missing bytes being zero.
     */
    method DeserializeV1(count: U16, saved: seq<Saved>)
      requires Shape(State())
      modifies this
      ensures State() == LoadAll(Cleared(old(State())), if count <= |saved| then saved[..count] else saved)
      ensures Shape(State())
    {
      Clear();
      ghost var read := if count <= |saved| then saved[..count] else saved;
      for i := 0 to count
        invariant Shape(State())
        invariant State() == LoadAll(Cleared(old(State())), if i <= |read| then read[..i] else read)
      {
        assert i < |read| ==> read[..i + 1][..i] == read[..i];
        assert i >= |read| ==> read[..|read|] == read;
        var s := if i < |saved| then saved[i] else Saved(0, 0.0, 0.0);
        var t := NodeTimer(s.timeout, s.elapsed, Unpack(s.p16));
        if s.timeout > 0.0 && t.position !in iterators {
          Insert(t);
        }
      }
      assert read[..|read|] == read;
    }
  }
}
