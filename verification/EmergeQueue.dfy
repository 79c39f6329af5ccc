/**
 The emerge queue: a table of requested blocks shared by all threads, one FIFO of positions
 per thread and a counter per requesting peer; and why the three never drift apart.
 */
module EmergeQueue {
  import opened Common

  datatype Flag = AllowGen | ForceQueue

  /** A completion callback: a function and the pointer it is to be given. */
  datatype Callback = Callback(procedure: nat, param: nat)

  datatype Entry = Entry(peer: U16, flags: set<Flag>, callbacks: seq<Callback>)

  /** The peer id of requests made by nobody in particular. */
  const NOBODY: U16 := 0

  datatype Limits = Limits(total: nat, diskOnly: nat, generate: nat)

  datatype Queue = Queue(table: map<Pos, Entry>, peers: map<U16, nat>, fifos: seq<seq<Pos>>)

  datatype Request = Request(pos: Pos, peer: U16, flags: set<Flag>, callback: Option<Callback>)

  // ----- The operations -----

  function CountOf(peers: map<U16, nat>, peer: U16): nat {
    if peer in peers then peers[peer] else 0
  }

  /** The queue limits; a request that exists already is held to them as well. */
  predicate Refused(q: Queue, limits: Limits, r: Request) {
    var count := CountOf(q.peers, r.peer);
    ForceQueue !in r.flags &&
    (|q.table| >= limits.total ||
     (if r.peer != NOBODY then count >= (if AllowGen in r.flags then limits.generate else limits.diskOnly)
      else count * 2 >= limits.total))
  }

  function CallbackList(c: Option<Callback>): seq<Callback> {
    if c.Some? then [c.value] else []
  }

  /** Record the request in the table, merging it with one for the same block. */
  function Record(q: Queue, r: Request): Queue {
    if r.pos in q.table then
      var e := q.table[r.pos];
      q.(table := q.table[r.pos := e.(flags := e.flags + r.flags, callbacks := e.callbacks + CallbackList(r.callback))])
    else
      q.(table := q.table[r.pos := Entry(r.peer, r.flags, CallbackList(r.callback))],
         peers := q.peers[r.peer := CountOf(q.peers, r.peer) + 1])
  }

  /** Looking a counter up creates it. */
  function Touched(q: Queue, peer: U16): Queue {
    q.(peers := q.peers[peer := CountOf(q.peers, peer)])
  }

  /** Index of the first among the shortest FIFOs. */
  function Shortest(fifos: seq<seq<Pos>>): (i: nat)
    requires |fifos| > 0
    ensures i < |fifos|
    ensures forall j :: 0 <= j < |fifos| ==> |fifos[i]| <= |fifos[j]|
    ensures forall j :: 0 <= j < i ==> |fifos[i]| < |fifos[j]|
  {
    if |fifos| == 1 then 0
    else
      var last := |fifos| - 1;
      var i := Shortest(fifos[..last]);
      assert fifos[..last][i] == fifos[i];
      assert forall j :: 0 <= j < last ==> fifos[..last][j] == fifos[j];
      if |fifos[last]| < |fifos[i]| then last else i
  }

  function Enqueue(q: Queue, limits: Limits, r: Request): Queue
    requires |q.fifos| > 0
  {
    if Refused(q, limits, r) then Touched(q, r.peer)
    else
      var recorded := Record(Touched(q, r.peer), r);
      if r.pos in q.table then recorded
      else
        var t := Shortest(q.fifos);
        recorded.(fifos := q.fifos[t := q.fifos[t] + [r.pos]])
  }

  /** Taking a block out of the table; the counter is asserted to be positive. */
  datatype Popped =
    | Missing
    | NoCounter(entry: Entry)
    | AssertionFails
    | Found(entry: Entry, table: map<Pos, Entry>, peers: map<U16, nat>)

  function PopData(q: Queue, pos: Pos): Popped {
    if pos !in q.table then Missing
    else
      var e := q.table[pos];
      if e.peer !in q.peers then NoCounter(e)
      else if q.peers[e.peer] == 0 then AssertionFails
      else Found(e, q.table - {pos}, q.peers[e.peer := q.peers[e.peer] - 1])
  }

  predicate CanPop(q: Queue, t: nat) {
    t < |q.fifos| && |q.fifos[t]| > 0 && PopData(q, q.fifos[t][0]).Found?
  }

  /** Taking the front of thread `t`'s FIFO. */
  function Pop(q: Queue, t: nat): Queue
    requires CanPop(q, t)
  {
    var d := PopData(q, q.fifos[t][0]);
    Queue(d.table, d.peers, q.fifos[t := q.fifos[t][1..]])
  }

  // ----- What holds in every reachable state -----

  /** How often a position is queued. */
  ghost function Times(fifos: seq<seq<Pos>>, p: Pos): nat {
    if fifos == [] then 0 else Times(fifos[..|fifos| - 1], p) + multiset(fifos[|fifos| - 1])[p]
  }

  ghost predicate QueuedOnce(q: Queue, p: Pos) {
    Times(q.fifos, p) == if p in q.table then 1 else 0
  }

  ghost function RequestedBy(table: map<Pos, Entry>, peer: U16): set<Pos> {
    set p | p in table && table[p].peer == peer
  }

  ghost predicate Agrees(table: map<Pos, Entry>, peers: map<U16, nat>, peer: U16) {
    CountOf(peers, peer) == |RequestedBy(table, peer)|
  }

  /**
   Each position of the table is queued exactly once and nothing else is, and every peer's
   counter is the number of table entries it asked for.
   */
  ghost predicate Consistent(q: Queue) {
    && |q.fifos| > 0
    && (forall p {:trigger QueuedOnce(q, p)} :: QueuedOnce(q, p))
    && (forall peer {:trigger Agrees(q.table, q.peers, peer)} :: Agrees(q.table, q.peers, peer))
  }

  lemma {:induction false} TimesUpdate(fifos: seq<seq<Pos>>, t: nat, f: seq<Pos>, p: Pos)
    requires t < |fifos|
    ensures Times(fifos[t := f], p) + multiset(fifos[t])[p] == Times(fifos, p) + multiset(f)[p]
  {
    var last := |fifos| - 1;
    if t < last {
      TimesUpdate(fifos[..last], t, f, p);
      assert fifos[t := f][..last] == fifos[..last][t := f];
    } else {
      assert fifos[t := f][..last] == fifos[..last];
    }
  }

  /** A place in a FIFO accounts for one occurrence; the rest of the FIFO for the others. */
  lemma TimesWithout(fifos: seq<seq<Pos>>, t: nat, k: nat, p: Pos)
    requires t < |fifos| && k < |fifos[t]|
    ensures Times(fifos, p) ==
            Times(fifos[t := fifos[t][..k] + fifos[t][k + 1..]], p) + (if fifos[t][k] == p then 1 else 0)
  {
    var f := fifos[t];
    TimesUpdate(fifos, t, f[..k] + f[k + 1..], p);
    assert f == f[..k] + ([f[k]] + f[k + 1..]);
    ConsContents(f[k], f[k + 1..]);
  }

  lemma {:induction false} FindQueued(fifos: seq<seq<Pos>>, p: Pos) returns (t: nat, k: nat)
    requires Times(fifos, p) > 0
    ensures t < |fifos| && k < |fifos[t]| && fifos[t][k] == p
  {
    var last := |fifos| - 1;
    if p in fifos[last] {
      t := last;
      k :| 0 <= k < |fifos[last]| && fifos[last][k] == p;
    } else {
      t, k := FindQueued(fifos[..last], p);
    }
  }

  /** Position `p` is found at index `k` of FIFO `t`. */
  predicate Sits(fifos: seq<seq<Pos>>, t: int, k: int, p: Pos) {
    0 <= t < |fifos| && 0 <= k < |fifos[t]| && fifos[t][k] == p
  }

  lemma SitsCounts(fifos: seq<seq<Pos>>, t: int, k: int, p: Pos)
    requires Sits(fifos, t, k, p)
    ensures Times(fifos, p) >= 1
  {
    TimesWithout(fifos, t, k, p);
  }

  lemma SitsTwice(fifos: seq<seq<Pos>>, t: int, k: int, t': int, k': int, p: Pos)
    requires Sits(fifos, t, k, p) && Sits(fifos, t', k', p) && (t != t' || k < k')
    ensures Times(fifos, p) >= 2
  {
    var rest := fifos[t := fifos[t][..k] + fifos[t][k + 1..]];
    TimesWithout(fifos, t, k, p);
    assert Sits(rest, t', if t == t' then k' - 1 else k', p);
    SitsCounts(rest, t', if t == t' then k' - 1 else k', p);
  }

  /** A table entry sits in one place of one FIFO, and every place holds a table entry. */
  lemma QueuedExactlyOnce(q: Queue, p: Pos)
    requires Consistent(q)
    ensures p in q.table <==> exists t, k :: Sits(q.fifos, t, k, p)
    ensures forall t, k, t', k' :: Sits(q.fifos, t, k, p) && Sits(q.fifos, t', k', p) ==> t == t' && k == k'
  {
    assert QueuedOnce(q, p);
    if p in q.table {
      var t, k := FindQueued(q.fifos, p);
      assert Sits(q.fifos, t, k, p);
    }
    forall t, k | Sits(q.fifos, t, k, p) ensures p in q.table {
      SitsCounts(q.fifos, t, k, p);
    }
    forall t, k, t', k' | Sits(q.fifos, t, k, p) && Sits(q.fifos, t', k', p) ensures t == t' && k == k' {
      if t != t' || k < k' {
        SitsTwice(q.fifos, t, k, t', k', p);
      } else if k' < k {
        SitsTwice(q.fifos, t', k', t, k, p);
      }
    }
  }

  // ----- Counters -----

  lemma CountOne<T>(s: set<T>, p: T)
    ensures |s + {p}| == |s| + (if p in s then 0 else 1)
    ensures |s - {p}| == |s| - (if p in s then 1 else 0)
  {
    if p in s {
      assert s + {p} == s;
    } else {
      assert s - {p} == s;
    }
  }

  lemma RequestedReplace(table: map<Pos, Entry>, pos: Pos, e: Entry, peer: U16)
    requires pos in table && e.peer == table[pos].peer
    ensures RequestedBy(table[pos := e], peer) == RequestedBy(table, peer)
  {
  }

  lemma RequestedInsert(table: map<Pos, Entry>, pos: Pos, e: Entry, peer: U16)
    requires pos !in table
    ensures |RequestedBy(table[pos := e], peer)| == |RequestedBy(table, peer)| + (if e.peer == peer then 1 else 0)
  {
    var s := RequestedBy(table, peer);
    CountOne(s, pos);
    assert RequestedBy(table[pos := e], peer) == if e.peer == peer then s + {pos} else s;
  }

  lemma RecordAgrees(q: Queue, r: Request, peer: U16)
    requires Agrees(q.table, q.peers, peer)
    ensures Agrees(Record(q, r).table, Record(q, r).peers, peer)
  {
    var e := Record(q, r).table[r.pos];
    if r.pos in q.table {
      RequestedReplace(q.table, r.pos, e, peer);
    } else {
      RequestedInsert(q.table, r.pos, e, peer);
    }
  }

  lemma PopAgrees(q: Queue, pos: Pos, peer: U16)
    requires Agrees(q.table, q.peers, peer) && PopData(q, pos).Found?
    ensures Agrees(PopData(q, pos).table, PopData(q, pos).peers, peer)
  {
    assert RequestedBy(PopData(q, pos).table, peer) == RequestedBy(q.table, peer) - {pos};
    CountOne(RequestedBy(q.table, peer), pos);
  }

  /** In a consistent queue a pop finds its block and its counter, and the assertion holds. */
  lemma PopNeverFails(q: Queue, t: nat)
    requires Consistent(q) && t < |q.fifos| && |q.fifos[t]| > 0
    ensures CanPop(q, t)
  {
    var pos := q.fifos[t][0];
    assert QueuedOnce(q, pos);
    assert Sits(q.fifos, t, 0, pos);
    SitsCounts(q.fifos, t, 0, pos);
    var peer := q.table[pos].peer;
    assert Agrees(q.table, q.peers, peer);
    assert pos in RequestedBy(q.table, peer);
  }

  // ----- Which requests are accepted -----

  /**
   Forced, or there is room in the table and its requester has not used up its share of it:
   a limit that depends on whether generating is allowed, or half the table for nobody's requests.
   */
  ghost predicate Admitted(table: map<Pos, Entry>, limits: Limits, r: Request) {
    var mine := |RequestedBy(table, r.peer)|;
    || ForceQueue in r.flags
    || (&& |table| < limits.total
        && (if r.peer == NOBODY then 2 * mine < limits.total
            else if AllowGen in r.flags then mine < limits.generate
            else mine < limits.diskOnly))
  }

  lemma AdmittedIff(q: Queue, limits: Limits, r: Request)
    requires Consistent(q)
    ensures Admitted(q.table, limits, r) <==> !Refused(q, limits, r)
  {
    assert Agrees(q.table, q.peers, r.peer);
  }

  /** What the entry of a block becomes: the first requester's, with the flags and callbacks of all. */
  ghost predicate Merged(table: map<Pos, Entry>, r: Request, e: Entry) {
    && e.callbacks == (if r.pos in table then table[r.pos].callbacks else [])
                      + (if r.callback.Some? then [r.callback.value] else [])
    && e.flags == (if r.pos in table then table[r.pos].flags else {}) + r.flags
    && e.peer == if r.pos in table then table[r.pos].peer else r.peer
  }

  /**
   An admitted request is in the table afterwards, merged with one for the same block, and a
   new one is last in a shortest FIFO.  Any other request changes neither table nor FIFOs,
   even if its block is queued already.
   */
  lemma EnqueueOutcome(q: Queue, limits: Limits, r: Request)
    requires Consistent(q)
    ensures var q', queued := Enqueue(q, limits, r), r.pos in q.table;
            && (r.pos in q'.table <==> queued || Admitted(q.table, limits, r))
            && (!Admitted(q.table, limits, r) ==> q'.table == q.table && q'.fifos == q.fifos)
            && (Admitted(q.table, limits, r) ==>
                  Merged(q.table, r, q'.table[r.pos]) && q'.table == q.table[r.pos := q'.table[r.pos]])
            && (Admitted(q.table, limits, r) && queued ==> q'.fifos == q.fifos)
            && (Admitted(q.table, limits, r) && !queued ==>
                  var t := Shortest(q.fifos); q'.fifos == q.fifos[t := q.fifos[t] + [r.pos]])
  {
    AdmittedIff(q, limits, r);
  }

  lemma EnqueueOnce(q: Queue, limits: Limits, r: Request, p: Pos)
    requires |q.fifos| > 0 && QueuedOnce(q, p)
    ensures QueuedOnce(Enqueue(q, limits, r), p)
  {
    if !Refused(q, limits, r) && r.pos !in q.table {
      var t := Shortest(q.fifos);
      TimesUpdate(q.fifos, t, q.fifos[t] + [r.pos], p);
    }
  }

  lemma EnqueueAgrees(q: Queue, limits: Limits, r: Request, peer: U16)
    requires |q.fifos| > 0 && Agrees(q.table, q.peers, peer)
    ensures Agrees(Enqueue(q, limits, r).table, Enqueue(q, limits, r).peers, peer)
  {
    RecordAgrees(Touched(q, r.peer), r, peer);
  }

  lemma EnqueueConsistent(q: Queue, limits: Limits, r: Request)
    requires Consistent(q)
    ensures Consistent(Enqueue(q, limits, r))
  {
    var q' := Enqueue(q, limits, r);
    forall p ensures QueuedOnce(q', p) {
      assert QueuedOnce(q, p);
      EnqueueOnce(q, limits, r, p);
    }
    forall peer ensures Agrees(q'.table, q'.peers, peer) {
      assert Agrees(q.table, q.peers, peer);
      EnqueueAgrees(q, limits, r, peer);
    }
  }

  lemma PopOnce(q: Queue, t: nat, p: Pos)
    requires CanPop(q, t) && QueuedOnce(q, p)
    ensures QueuedOnce(Pop(q, t), p)
  {
    var f := q.fifos[t];
    assert f[..0] + f[1..] == f[1..];
    TimesWithout(q.fifos, t, 0, p);
    assert QueuedOnce(q, p) && f[0] in q.table;
  }

  lemma PopConsistent(q: Queue, t: nat)
    requires Consistent(q) && CanPop(q, t)
    ensures Consistent(Pop(q, t))
  {
    var q' := Pop(q, t);
    forall p ensures QueuedOnce(q', p) {
      assert QueuedOnce(q, p);
      PopOnce(q, t, p);
    }
    forall peer ensures Agrees(q'.table, q'.peers, peer) {
      assert Agrees(q.table, q.peers, peer);
      PopAgrees(q, q.fifos[t][0], peer);
    }
  }

  // ----- Cancelling -----

  /** Everything queued for one thread is popped. */
  function CancelAll(q: Queue, t: nat): Queue
    requires t < |q.fifos|
    decreases |q.fifos[t]|
  {
    if CanPop(q, t) then CancelAll(Pop(q, t), t) else q
  }

  /** The blocks popped in doing so, in order. */
  function CancelledBlocks(q: Queue, t: nat): seq<(Pos, Entry)>
    requires t < |q.fifos|
    decreases |q.fifos[t]|
  {
    if CanPop(q, t) then [(q.fifos[t][0], q.table[q.fifos[t][0]])] + CancelledBlocks(Pop(q, t), t) else []
  }

  /** Cancelling leaves nothing queued for the thread. */
  lemma {:induction false} CancelledEmpties(q: Queue, t: nat)
    requires Consistent(q) && t < |q.fifos|
    ensures Consistent(CancelAll(q, t)) && |CancelAll(q, t).fifos| == |q.fifos| && CancelAll(q, t).fifos[t] == []
    decreases |q.fifos[t]|
  {
    if q.fifos[t] != [] {
      PopNeverFails(q, t);
      PopConsistent(q, t);
      CancelledEmpties(Pop(q, t), t);
    }
  }

  // ----- Limits -----

  ghost predicate WithinLimits(q: Queue, limits: Limits) {
    && |q.table| <= limits.total
    && (forall peer :: peer != NOBODY ==> CountOf(q.peers, peer) <= Larger(limits.diskOnly, limits.generate))
    && 2 * CountOf(q.peers, NOBODY) <= limits.total + 1
  }

  lemma EnqueueGrows(q: Queue, limits: Limits, r: Request)
    requires |q.fifos| > 0
    ensures |Enqueue(q, limits, r).table| ==
            |q.table| + (if Refused(q, limits, r) || r.pos in q.table then 0 else 1)
  {
    var q' := Enqueue(q, limits, r);
    CountOne(q.table.Keys, r.pos);
    if !Refused(q, limits, r) {
      assert q'.table.Keys == q.table.Keys + {r.pos};
    }
    assert |q'.table.Keys| == |q'.table| && |q.table.Keys| == |q.table|;
  }

  lemma EnqueueCounts(q: Queue, limits: Limits, r: Request, peer: U16)
    requires |q.fifos| > 0
    ensures CountOf(Enqueue(q, limits, r).peers, peer) ==
            CountOf(q.peers, peer) + (if Refused(q, limits, r) || r.pos in q.table || peer != r.peer then 0 else 1)
  {
  }

  /** A request that respects the limits never takes the queue over them. */
  lemma EnqueueWithinLimits(q: Queue, limits: Limits, r: Request)
    requires |q.fifos| > 0 && WithinLimits(q, limits) && ForceQueue !in r.flags
    ensures WithinLimits(Enqueue(q, limits, r), limits)
  {
    EnqueueGrows(q, limits, r);
    EnqueueCounts(q, limits, r, NOBODY);
    forall peer | peer != NOBODY
      ensures CountOf(Enqueue(q, limits, r).peers, peer) <= Larger(limits.diskOnly, limits.generate)
    {
      assert CountOf(q.peers, peer) <= Larger(limits.diskOnly, limits.generate);
      EnqueueCounts(q, limits, r, peer);
    }
  }

  lemma PopWithinLimits(q: Queue, limits: Limits, t: nat)
    requires CanPop(q, t) && WithinLimits(q, limits)
    ensures WithinLimits(Pop(q, t), limits)
  {
    var q' := Pop(q, t);
    var pos := q.fifos[t][0];
    assert q'.table.Keys == q.table.Keys - {pos};
    CountOne(q.table.Keys, pos);
    assert |q'.table.Keys| == |q'.table| && |q.table.Keys| == |q.table|;
    forall peer | peer != NOBODY ensures CountOf(q'.peers, peer) <= Larger(limits.diskOnly, limits.generate) {
      assert CountOf(q.peers, peer) <= Larger(limits.diskOnly, limits.generate);
    }
  }
}
