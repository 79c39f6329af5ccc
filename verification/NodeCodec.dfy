/** The bulk format of a block's nodes: all contents, then all first and all second parameters. */
module NodeCodec {
  import opened Common

  datatype MapNode = MapNode(param0: U16, param1: U8, param2: U8)

  function High(x: U16): U8 {
    x / 0x100
  }

  function Low(x: U16): U8 {
    x % 0x100
  }

  function Word(high: U8, low: U8): U16 {
    high * 0x100 + low
  }

  lemma WordOfHalves(x: U16)
    ensures Word(High(x), Low(x)) == x
  {
  }

  lemma WordIsInjective(h: U8, l: U8, h': U8, l': U8)
    requires Word(h, l) == Word(h', l')
    ensures h == h' && l == l'
  {
  }

  /** Contents take two bytes each, the high one first. */
  ghost predicate NodeLaidOut(nodes: seq<MapNode>, bytes: seq<U8>, i: nat)
    requires i < |nodes| && |bytes| == 4 * |nodes|
  {
    && nodes[i].param0 == bytes[2 * i] as int * 256 + bytes[2 * i + 1]
    && nodes[i].param1 == bytes[2 * |nodes| + i]
    && nodes[i].param2 == bytes[3 * |nodes| + i]
  }

  /** The bytes are the bulk format of the nodes. */
  ghost predicate LaidOut(nodes: seq<MapNode>, bytes: seq<U8>) {
    |bytes| == 4 * |nodes|
    && forall i {:trigger NodeLaidOut(nodes, bytes, i)} :: 0 <= i < |nodes| ==> NodeLaidOut(nodes, bytes, i)
  }

  lemma SameNodesSameBytes(nodes: seq<MapNode>, x: seq<U8>, y: seq<U8>, k: nat)
    requires LaidOut(nodes, x) && LaidOut(nodes, y) && k < |x|
    ensures x[k] == y[k]
  {
    var n := |nodes|;
    if k < 2 * n {
      var i := k / 2;
      assert NodeLaidOut(nodes, x, i) && NodeLaidOut(nodes, y, i);
      WordIsInjective(x[2 * i], x[2 * i + 1], y[2 * i], y[2 * i + 1]);
    } else {
      var i := if k < 3 * n then k - 2 * n else k - 3 * n;
      assert NodeLaidOut(nodes, x, i) && NodeLaidOut(nodes, y, i);
    }
  }

  /** Bytes stand for one sequence of nodes only, and nodes have one form only. */
  lemma LayoutIsBijective(a: seq<MapNode>, x: seq<U8>, b: seq<MapNode>, y: seq<U8>)
    requires LaidOut(a, x) && LaidOut(b, y)
    ensures a == b <==> x == y
  {
    if x == y {
      forall i | 0 <= i < |a| ensures a[i] == b[i] {
        assert NodeLaidOut(a, x, i) && NodeLaidOut(b, y, i);
      }
    }
    if a == b {
      forall k | 0 <= k < |x| ensures x[k] == y[k] {
        SameNodesSameBytes(a, x, y, k);
      }
    }
  }

  method WriteU16(buf: array<U8>, at: nat, x: U16)
    requires at + 1 < buf.Length
    modifies buf
    ensures Word(buf[at], buf[at + 1]) == x
    ensures forall k :: 0 <= k < buf.Length && k != at && k != at + 1 ==> buf[k] == old(buf[k])
  {
    WordOfHalves(x);
    buf[at] := High(x);
    buf[at + 1] := Low(x);
  }

  method SerializeBulkV1(nodes: array<MapNode>) returns (buf: array<U8>)
    ensures fresh(buf) && LaidOut(nodes[..], buf[..])
  {
    var n := nodes.Length;
    buf := new U8[4 * n](_ => 0);
    var start1, start2 := 2 * n, 3 * n;
    for i := 0 to n
      invariant forall j {:trigger NodeLaidOut(nodes[..], buf[..], j)} :: 0 <= j < i ==>
                  NodeLaidOut(nodes[..], buf[..], j)
    {
      ghost var before := buf[..];
      WriteU16(buf, 2 * i, nodes[i].param0);
      Put(buf, start1 + i, nodes[i].param1);
      Put(buf, start2 + i, nodes[i].param2);
      forall j | 0 <= j < i ensures NodeLaidOut(nodes[..], buf[..], j) {
        assert NodeLaidOut(nodes[..], before, j);
      }
    }
  }

  /** A buffer into which as much has been read as the stream holds. */
  function Filled(buffer: seq<U8>, stream: seq<U8>): (r: seq<U8>)
    ensures |r| == |buffer|
    ensures |stream| >= |buffer| ==> r == stream[..|buffer|]
    ensures forall k :: 0 <= k < |buffer| ==> r[k] == if k < |stream| then stream[k] else buffer[k]
  {
    if |stream| >= |buffer| then stream[..|buffer|] else stream + buffer[|stream|..]
  }

  /**
   Reads the nodes off the stream, by way of a buffer, and returns what follows them.  A
   stream that is too short goes unnoticed: the rest is whatever the new buffer held.
   */
  method DeSerializeBulkV1(stream: seq<U8>, buffer: seq<U8>, nodes: array<MapNode>) returns (tail: seq<U8>)
    requires |buffer| == 4 * nodes.Length
    modifies nodes
    ensures LaidOut(nodes[..], Filled(buffer, stream))
    ensures tail == if |stream| >= |buffer| then stream[|buffer|..] else []
  {
    tail := if |stream| >= |buffer| then stream[|buffer|..] else [];
    ReadNodes(Filled(buffer, stream), nodes);
  }

  /** The nodes are read out of the buffer in three passes. */
  method ReadNodes(bytes: seq<U8>, nodes: array<MapNode>)
    requires |bytes| == 4 * nodes.Length
    modifies nodes
    ensures LaidOut(nodes[..], bytes)
  {
    var n := nodes.Length;
    for i := 0 to n
      invariant forall j :: 0 <= j < i ==> nodes[j].param0 == Word(bytes[2 * j], bytes[2 * j + 1])
    {
      nodes[i] := nodes[i].(param0 := Word(bytes[2 * i], bytes[2 * i + 1]));
    }
    var start1 := 2 * n;
    for i := 0 to n
      invariant forall j :: 0 <= j < n ==> nodes[j].param0 == Word(bytes[2 * j], bytes[2 * j + 1])
      invariant forall j :: 0 <= j < i ==> nodes[j].param1 == bytes[start1 + j]
    {
      nodes[i] := nodes[i].(param1 := bytes[start1 + i]);
    }
    var start2 := 3 * n;
    for i := 0 to n
      invariant forall j :: 0 <= j < n ==> nodes[j].param0 == Word(bytes[2 * j], bytes[2 * j + 1])
      invariant forall j :: 0 <= j < n ==> nodes[j].param1 == bytes[start1 + j]
      invariant forall j :: 0 <= j < i ==> nodes[j].param2 == bytes[start2 + j]
    {
      nodes[i] := nodes[i].(param2 := bytes[start2 + i]);
    }
  }
}
