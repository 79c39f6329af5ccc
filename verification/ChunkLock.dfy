/**
 Chunks of blocks: how the positions are divided into them, and the set of chunks in
 progress that keeps two threads from generating the same one.
 */
module ChunkLock {
  import opened Common

  const MAX_MAP_GENERATION_LIMIT := 31007
  const MAP_BLOCKSIZE := 16

  // ----- Geometry -----

  /** Integer division as in C++, rounding toward zero. */
  function TruncatedDiv(a: int, d: int): int
    requires d > 0
  {
    if a >= 0 then a / d else -(-a / d)
  }

  function ContainerPos(p: int, d: int): int
    requires d > 0
  {
    TruncatedDiv(if p >= 0 then p else p - d + 1, d)
  }

  /** First block, along one axis, of the chunk a block belongs to. */
  function ChunkStart(p: int, size: int): int
    requires size > 0
  {
    var offset := TruncatedDiv(-size, 2);
    ContainerPos(p - offset, size) * size + offset
  }

  function ContainingChunk(p: Pos, size: int): Pos
    requires size > 0
  {
    Pos(ChunkStart(p.x, size), ChunkStart(p.y, size), ChunkStart(p.z, size))
  }

  predicate InBox(p: Pos, min: Pos, max: Pos) {
    min.x <= p.x <= max.x && min.y <= p.y <= max.y && min.z <= p.z <= max.z
  }

  function Shifted(p: Pos, d: int): Pos {
    Pos(p.x + d, p.y + d, p.z + d)
  }

  /** The blocks of the chunk that starts at `min`. */
  predicate InChunk(p: Pos, min: Pos, size: int) {
    InBox(p, min, Shifted(min, size - 1))
  }

  lemma Multiples(a: int, b: int, d: int)
    requires d > 0
    ensures a < b ==> a * d + d <= b * d
  {
    if a < b {
      assert (b - a - 1) * d >= 0;
    }
  }

  lemma FloorUnique(a: int, k: int, d: int)
    requires d > 0 && k * d <= a < k * d + d
    ensures a / d == k
  {
    assert a == (a / d) * d + a % d;
    Multiples(a / d, k, d);
    Multiples(k, a / d, d);
  }

  /** The truncating formula rounds down, for negative positions too. */
  lemma ContainerPosIsFloor(p: int, d: int)
    requires d > 0
    ensures ContainerPos(p, d) == p / d
  {
    if p < 0 {
      var q := p / d;
      assert p == q * d + p % d;
      assert (-q) * d == -(q * d);
      FloorUnique(d - 1 - p, -q, d);
    }
  }

  lemma StartIsBelow(p: int, size: int)
    requires size > 0
    ensures ChunkStart(p, size) <= p <= ChunkStart(p, size) + size - 1
  {
    var a := p - TruncatedDiv(-size, 2);
    ContainerPosIsFloor(a, size);
    assert a == (a / size) * size + a % size;
  }

  lemma SameStart(p: int, q: int, size: int)
    requires size > 0
    ensures ChunkStart(q, size) <= p <= ChunkStart(q, size) + size - 1 <==> ChunkStart(p, size) == ChunkStart(q, size)
  {
    StartIsBelow(p, size);
    if ChunkStart(q, size) <= p <= ChunkStart(q, size) + size - 1 {
      var offset := TruncatedDiv(-size, 2);
      ContainerPosIsFloor(p - offset, size);
      ContainerPosIsFloor(q - offset, size);
      FloorUnique(p - offset, (q - offset) / size, size);
    }
  }

  /** Chunks partition the blocks: a block lies in a chunk exactly when that is its own. */
  lemma ChunksPartition(p: Pos, q: Pos, size: int)
    requires size > 0
    ensures InChunk(p, ContainingChunk(q, size), size) <==> ContainingChunk(p, size) == ContainingChunk(q, size)
  {
    SameStart(p.x, q.x, size);
    SameStart(p.y, q.y, size);
    SameStart(p.z, q.z, size);
  }

  lemma StartByFloor(p: int, size: int)
    requires size > 0
    ensures ChunkStart(p, size) == (p + size / 2) / size * size - size / 2
  {
    ContainerPosIsFloor(p + size / 2, size);
  }

  lemma OneFurther(a: int, d: int)
    requires d > 0
    ensures (a + d) / d == a / d + 1
  {
    var q := a / d;
    assert a == q * d + a % d;
    assert (q + 1) * d == q * d + d;
    FloorUnique(a + d, q + 1, d);
  }

  lemma NextMultiple(a: int, d: int)
    requires d > 0
    ensures (a + d) / d * d == a / d * d + d
  {
    OneFurther(a, d);
    var q := a / d;
    assert (q + 1) * d == q * d + d;
  }

  lemma FirstMultiple(d: int)
    requires d > 0
    ensures d / 2 / d * d == 0
  {
    FloorUnique(d / 2, 0, d);
  }

  /** Chunks are laid out so that the one around the origin is centred there, and repeat after `size` blocks. */
  lemma ChunksAreCentred(p: int, size: int)
    requires size > 0
    ensures ChunkStart(0, size) == -(size / 2)
    ensures ChunkStart(p + size, size) == ChunkStart(p, size) + size
  {
    StartByFloor(0, size);
    FirstMultiple(size);
    StartByFloor(p, size);
    StartByFloor(p + size, size);
    NextMultiple(p + size / 2, size);
    assert p + size + size / 2 == p + size / 2 + size;
  }

  // ----- Limits -----

  predicate OverLimit(p: Pos, limit: int) {
    !InBox(p, Pos(-limit, -limit, -limit), Pos(limit, limit, limit))
  }

  predicate OverMaxLimit(p: Pos) {
    OverLimit(p, MAX_MAP_GENERATION_LIMIT / MAP_BLOCKSIZE)
  }

  function Clamped(x: int, lo: int, hi: int): int {
    if x < lo then lo else if x > hi then hi else x
  }

  predicate OverMapgenLimit(p: Pos, mapgenLimit: int) {
    OverLimit(p, Clamped(mapgenLimit, 0, MAX_MAP_GENERATION_LIMIT) / MAP_BLOCKSIZE)
  }

  datatype MapParams = MapParams(chunkSize: int, mapgenLimit: int)

  /** The chunk that starts at `min`, with one block all around it, is inside the limits. */
  predicate Generatable(min: Pos, params: MapParams) {
    && !OverMapgenLimit(Shifted(min, -1), params.mapgenLimit)
    && !OverMapgenLimit(Shifted(min, params.chunkSize), params.mapgenLimit)
  }

  /** Blocks can be asked for up to block 1937 along each axis. */
  lemma FarthestBlock(p: Pos)
    ensures OverMaxLimit(p)
            <==> p.x < -1937 || p.x > 1937 || p.y < -1937 || p.y > 1937 || p.z < -1937 || p.z > 1937
  {
  }

  /** Along one axis: the chunk and a block on either side are inside the limit, which is given in nodes. */
  predicate WithinMapgenLimit(start: int, params: MapParams) {
    var nodes := if params.mapgenLimit > 31007 then 31007 else if params.mapgenLimit < 0 then 0 else params.mapgenLimit;
    -(nodes / 16) <= start - 1 && start + params.chunkSize <= nodes / 16
  }

  lemma GeneratableIff(min: Pos, params: MapParams)
    requires params.chunkSize > 0
    ensures Generatable(min, params) <==> WithinMapgenLimit(min.x, params) && WithinMapgenLimit(min.y, params)
                                          && WithinMapgenLimit(min.z, params)
  {
  }

  // ----- The map -----

  /** Blocks in memory, blocks on disk, blocks marked as generated, chunks in progress. */
  datatype MapState = MapState(inMemory: set<Pos>, onDisk: set<Pos>, generated: set<Pos>, inProgress: set<Pos>)

  ghost function Box(min: Pos, max: Pos): (s: set<Pos>)
    ensures forall p :: p in s <==> InBox(p, min, max)
  {
    var s := set x, y, z | min.x <= x <= max.x && min.y <= y <= max.y && min.z <= z <= max.z :: Pos(x, y, z);
    assert forall p :: InBox(p, min, max) ==> p == Pos(p.x, p.y, p.z) && p in s;
    s
  }

  /** Claiming a chunk, and creating all its blocks and those around it. */
  ghost function Claim(m: MapState, chunk: Pos, params: MapParams): MapState {
    var claimed := m.(inProgress := m.inProgress + {chunk});
    if chunk !in m.inProgress && Generatable(chunk, params) then
      claimed.(inMemory := m.inMemory + Box(Shifted(chunk, -1), Shifted(chunk, params.chunkSize)))
    else claimed
  }

  /** Marking the blocks of a finished chunk that are in memory, and giving the chunk up. */
  ghost function Release(m: MapState, chunk: Pos, params: MapParams): MapState {
    m.(generated := m.generated + (m.inMemory * Box(chunk, Shifted(chunk, params.chunkSize - 1))),
       inProgress := m.inProgress - {chunk})
  }

  /** What became of a requested block. */
  datatype Action = Cancelled | Errored | FromMemory | FromDisk | Generated

  datatype Fetched = Fetched(m: MapState, action: Action)

  /**
   Get a block that is generated from memory or from disk; otherwise, if allowed, start the
   generation of its chunk, for which the action is `Generated`.
   */
  ghost function Fetch(m: MapState, pos: Pos, allowGen: bool, params: MapParams): Fetched
    requires params.chunkSize > 0
  {
    if pos in m.inMemory && pos in m.generated then Fetched(m, FromMemory)
    else
      var loads := pos !in m.inMemory && pos in m.onDisk;
      var m' := if loads then m.(inMemory := m.inMemory + {pos}) else m;
      if loads && pos in m.generated then Fetched(m', FromDisk)
      else if !allowGen then Fetched(m', Cancelled)
      else
        var chunk := ContainingChunk(pos, params.chunkSize);
        Fetched(Claim(m', chunk, params),
                if chunk !in m.inProgress && Generatable(chunk, params) then Generated else Cancelled)
  }

  /**
   A generated block comes from memory if it is there, else from disk; any other starts the
   generation of its chunk if that is allowed, free and within the limits, and fails otherwise,
   leaving the chunk claimed all the same.
   */
  lemma FetchOutcome(m: MapState, pos: Pos, allowGen: bool, params: MapParams)
    requires params.chunkSize > 0
    ensures var f, chunk := Fetch(m, pos, allowGen, params), ContainingChunk(pos, params.chunkSize);
            var available := pos in m.generated && (pos in m.inMemory || pos in m.onDisk);
            && (f.action == FromMemory <==> available && pos in m.inMemory)
            && (f.action == FromDisk <==> available && pos !in m.inMemory)
            && (f.action == Generated <==>
                  !available && allowGen && chunk !in m.inProgress && Generatable(chunk, params))
            && (f.action != Generated ==> f.action in {FromMemory, FromDisk, Cancelled})
            && (available ==> f.m.inProgress == m.inProgress && f.m.inMemory == m.inMemory + {pos})
            && (f.action == Generated ==>
                  forall p :: p in f.m.inMemory
                       <==> p in m.inMemory || InBox(p, Shifted(chunk, -1), Shifted(chunk, params.chunkSize))
                            || (p == pos && p in m.onDisk))
            && (!available && allowGen ==> f.m.inProgress == m.inProgress + {chunk})
            && (!allowGen ==> f.m.inProgress == m.inProgress)
            && f.m.generated == m.generated && f.m.onDisk == m.onDisk
  {
  }

  class ServerMap {
    const params: MapParams
    var inMemory: set<Pos>
    var onDisk: set<Pos>
    var generated: set<Pos>
    var chunksInProgress: set<Pos>

    constructor (params: MapParams)
      ensures this.params == params && State() == MapState({}, {}, {}, {})
    {
      this.params := params;
      inMemory, onDisk, generated, chunksInProgress := {}, {}, {}, {};
    }

    ghost function State(): MapState
      reads this
    {
      MapState(inMemory, onDisk, generated, chunksInProgress)
    }

    /** Loads or creates one column of blocks. */
    method EmergeColumn(x: int, z: int, minY: int, maxY: int)
      modifies this`inMemory
      ensures forall p :: p in inMemory <==> p in old(inMemory) || InBox(p, Pos(x, minY, z), Pos(x, maxY, z))
    {
      var y := minY;
      while y <= maxY
        invariant minY <= y
        invariant forall p :: p in inMemory <==>
                    p in old(inMemory) || (p.x == x && p.z == z && minY <= p.y < y && p.y <= maxY)
      {
        inMemory := inMemory + {Pos(x, y, z)};
        y := y + 1;
      }
    }

    method EmergeArea(min: Pos, max: Pos)
      modifies this`inMemory
      ensures forall p :: p in inMemory <==> p in old(inMemory) || InBox(p, min, max)
    {
      var x := min.x;
      while x <= max.x
        invariant min.x <= x
        invariant forall p :: p in inMemory <==> p in old(inMemory) || (InBox(p, min, max) && p.x < x)
      {
        var z := min.z;
        while z <= max.z
          invariant min.z <= z
          invariant forall p :: p in inMemory <==>
                      p in old(inMemory) || (InBox(p, min, max) && (p.x < x || (p.x == x && p.z < z)))
        {
          EmergeColumn(x, z, min.y, max.y);
          z := z + 1;
        }
        x := x + 1;
      }
    }

    /**
     Starts the generation of the chunk around a block, unless it is in progress or too far
     out; in the latter case the chunk nevertheless stays claimed.
     */
    method InitBlockMake(pos: Pos) returns (started: bool, chunk: Pos)
      requires params.chunkSize > 0
      modifies this`chunksInProgress, this`inMemory
      ensures chunk == ContainingChunk(pos, params.chunkSize)
      ensures started <==> chunk !in old(chunksInProgress) && Generatable(chunk, params)
      ensures State() == Claim(old(State()), chunk, params)
    {
      chunk := ContainingChunk(pos, params.chunkSize);
      var last := Shifted(chunk, params.chunkSize - 1);
      if chunk in chunksInProgress {
        assert chunksInProgress + {chunk} == chunksInProgress;
        return false, chunk;
      }
      chunksInProgress := chunksInProgress + {chunk};
      var fullMin, fullMax := Shifted(chunk, -1), Shifted(last, 1);
      if OverMapgenLimit(fullMin, params.mapgenLimit) || OverMapgenLimit(fullMax, params.mapgenLimit) {
        return false, chunk;
      }
      EmergeArea(fullMin, fullMax);
      assert inMemory == old(inMemory) + Box(fullMin, fullMax);
      started := true;
    }

    method MarkColumn(x: int, z: int, minY: int, maxY: int)
      modifies this`generated
      ensures forall p :: p in generated <==>
                p in old(generated) || (p in inMemory && InBox(p, Pos(x, minY, z), Pos(x, maxY, z)))
    {
      var y := minY;
      while y <= maxY
        invariant minY <= y
        invariant forall p :: p in generated <==>
                    p in old(generated) || (p in inMemory && p.x == x && p.z == z && minY <= p.y < y && p.y <= maxY)
      {
        var p := Pos(x, y, z);
        if p in inMemory {
          generated := generated + {p};
        }
        y := y + 1;
      }
    }

    method FinishBlockMake(chunk: Pos)
      modifies this`generated, this`chunksInProgress
      ensures State() == Release(old(State()), chunk, params)
    {
      var last := Shifted(chunk, params.chunkSize - 1);
      var x := chunk.x;
      while x <= last.x
        invariant chunk.x <= x
        invariant chunksInProgress == old(chunksInProgress)
        invariant forall p :: p in generated <==>
                    p in old(generated) || (p in inMemory && InBox(p, chunk, last) && p.x < x)
      {
        var z := chunk.z;
        while z <= last.z
          invariant chunk.z <= z
          invariant chunksInProgress == old(chunksInProgress)
          invariant forall p :: p in generated <==>
                      p in old(generated)
                      || (p in inMemory && InBox(p, chunk, last) && (p.x < x || (p.x == x && p.z < z)))
        {
          MarkColumn(x, z, chunk.y, last.y);
          z := z + 1;
        }
        x := x + 1;
      }
      assert generated == old(generated) + (inMemory * Box(chunk, last));
      chunksInProgress := chunksInProgress - {chunk};
    }

    method GetBlockOrStartGen(pos: Pos, allowGen: bool) returns (action: Action, chunk: Pos)
      requires params.chunkSize > 0
      modifies this`inMemory, this`chunksInProgress
      ensures Fetched(State(), action) == Fetch(old(State()), pos, allowGen, params)
      ensures action == Generated ==> chunk == ContainingChunk(pos, params.chunkSize)
    {
      chunk := pos;
      if pos in inMemory {
        if pos in generated {
          return FromMemory, chunk;
        }
      } else if pos in onDisk {
        inMemory := inMemory + {pos};
        if pos in generated {
          return FromDisk, chunk;
        }
      }
      if allowGen {
        var started;
        started, chunk := InitBlockMake(pos);
        if started {
          return Generated, chunk;
        }
      }
      action := Cancelled;
    }
  }
}
