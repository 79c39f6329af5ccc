/**
 A block's nodes on their way to disk and back: ids are replaced by local ones that a table
 maps to names, and on loading by the ids those names have in the registry of the day.
 */
module BlockNodes {
  import opened Common
  import opened NodeCodec
  import opened NodeDefs

  const NODECOUNT := 4096

  // ----- Renumbering -----

  /**
   `now` is `was` with local ids: numbered from 0 without gaps in the order in which they
   first occur, one per original id, and with that id's name in the table.
   */
  ghost predicate Renumbered(d: Defs, was: seq<MapNode>, now: seq<MapNode>, nimap: map<U16, string>)
    requires Valid(d)
  {
    && |now| == |was|
    && (forall i :: 0 <= i < |was| ==> now[i].param1 == was[i].param1 && now[i].param2 == was[i].param2)
    && (forall i :: 0 <= i < |was| ==> now[i].param0 in nimap && nimap[now[i].param0] == NameOf(d, was[i].param0))
    && (forall i, j :: 0 <= i < |was| && 0 <= j < |was| ==>
          (now[i].param0 == now[j].param0 <==> was[i].param0 == was[j].param0))
    && |nimap| <= |was| && (forall id :: id in nimap <==> 0 <= id < |nimap|)
    && (forall id :: id in nimap ==> nimap[id] != "")
    && (forall i :: 0 <= i < |was| && FirstAt(was, i) ==> forall j :: 0 <= j < i ==> now[j].param0 < now[i].param0)
  }

  predicate FirstAt(nodes: seq<MapNode>, i: nat)
    requires i < |nodes|
  {
    forall j :: 0 <= j < i ==> nodes[j].param0 != nodes[i].param0
  }

  /** The table in the making: local ids below `count`, 0xFFFF for ids without one. */
  ghost predicate TableFits(d: Defs, mapping: seq<U16>, nimap: map<U16, string>, count: nat)
    requires Valid(d)
  {
    && |mapping| == 0x1_0000 && |nimap| == count
    && (forall id :: id in nimap <==> 0 <= id < count)
    && (forall id :: id in nimap ==> nimap[id] != "")
    && (forall g: U16 :: mapping[g] != 0xFFFF ==> mapping[g] in nimap && nimap[mapping[g]] == NameOf(d, g))
    && (forall g: U16, h: U16 :: mapping[g] == mapping[h] != 0xFFFF ==> g == h)
  }

  ghost predicate FirstsAscend(was: seq<MapNode>, now: seq<MapNode>, i: nat)
    requires i <= |was| == |now|
  {
    forall j :: 0 <= j < i && FirstAt(was, j) ==> forall k :: 0 <= k < j ==> now[k].param0 < now[j].param0
  }

  /** The first `i` nodes have been renumbered by the table. */
  ghost predicate PrefixRenumbered(was: seq<MapNode>, now: seq<MapNode>, mapping: seq<U16>, i: nat) {
    && |now| == |was| && i <= |was| && |mapping| == 0x1_0000
    && (forall j :: 0 <= j < i ==> mapping[was[j].param0] == now[j].param0 != 0xFFFF)
    && (forall j :: 0 <= j < |was| ==> now[j].param1 == was[j].param1 && now[j].param2 == was[j].param2)
    && (forall j :: i <= j < |was| ==> now[j] == was[j])
    && FirstsAscend(was, now, i)
  }

  lemma NewEntryFits(d: Defs, mapping: seq<U16>, nimap: map<U16, string>, count: nat, g: U16)
    requires Valid(d) && TableFits(d, mapping, nimap, count) && count < 0xFFFF && mapping[g] == 0xFFFF
    ensures TableFits(d, mapping[g := count], nimap[count := NameOf(d, g)], count + 1)
  {
  }

  /** Ids with a table entry have occurred before. */
  ghost predicate EntriesOccur(was: seq<MapNode>, mapping: seq<U16>, i: nat) {
    && i <= |was| && |mapping| == 0x1_0000
    && forall g: U16 :: mapping[g] != 0xFFFF ==> exists j :: 0 <= j < i && was[j].param0 == g
  }

  lemma KnownIdRenumbers(was: seq<MapNode>, now: seq<MapNode>, mapping: seq<U16>, i: nat)
    requires PrefixRenumbered(was, now, mapping, i) && EntriesOccur(was, mapping, i)
    requires i < |was| && mapping[was[i].param0] != 0xFFFF
    ensures PrefixRenumbered(was, now[i := now[i].(param0 := mapping[was[i].param0])], mapping, i + 1)
    ensures EntriesOccur(was, mapping, i + 1)
  {
    assert !FirstAt(was, i);
  }

  lemma NewIdRenumbers(d: Defs, was: seq<MapNode>, now: seq<MapNode>, mapping: seq<U16>, nimap: map<U16, string>,
                       count: nat, i: nat)
    requires Valid(d) && TableFits(d, mapping, nimap, count) && count < 0xFFFF && EntriesOccur(was, mapping, i)
    requires PrefixRenumbered(was, now, mapping, i) && i < |was| && mapping[was[i].param0] == 0xFFFF
    ensures PrefixRenumbered(was, now[i := now[i].(param0 := count)], mapping[was[i].param0 := count], i + 1)
    ensures EntriesOccur(was, mapping[was[i].param0 := count], i + 1)
  {
  }

  /** The loop after `i` nodes, with `count` local ids given out. */
  ghost predicate Halfway(
    d: Defs, was: seq<MapNode>, now: seq<MapNode>, mapping: seq<U16>, nimap: map<U16, string>, count: nat, i: nat
  )
    requires Valid(d)
  {
    && TableFits(d, mapping, nimap, count) && count <= i
    && PrefixRenumbered(was, now, mapping, i) && EntriesOccur(was, mapping, i)
  }

  lemma NothingYet(d: Defs, was: seq<MapNode>, mapping: seq<U16>)
    requires Valid(d) && |mapping| == 0x1_0000 && forall g: U16 :: mapping[g] == 0xFFFF
    ensures Halfway(d, was, was, mapping, map[], 0, 0)
  {
  }

  lemma AllRenumbered(
    d: Defs, was: seq<MapNode>, now: seq<MapNode>, mapping: seq<U16>, nimap: map<U16, string>, count: nat
  )
    requires Valid(d) && Halfway(d, was, now, mapping, nimap, count, |was|)
    ensures Renumbered(d, was, now, nimap)
  {
  }

  lemma StepKnown(
    d: Defs, was: seq<MapNode>, now: seq<MapNode>, mapping: seq<U16>, nimap: map<U16, string>, count: nat, i: nat
  )
    requires Valid(d) && Halfway(d, was, now, mapping, nimap, count, i)
    requires i < |was| && mapping[was[i].param0] != 0xFFFF
    ensures Halfway(d, was, now[i := was[i].(param0 := mapping[was[i].param0])], mapping, nimap, count, i + 1)
  {
    KnownIdRenumbers(was, now, mapping, i);
  }

  lemma StepNew(
    d: Defs, was: seq<MapNode>, now: seq<MapNode>, mapping: seq<U16>, nimap: map<U16, string>, count: nat, i: nat
  )
    requires Valid(d) && Halfway(d, was, now, mapping, nimap, count, i)
    requires i < |was| <= NODECOUNT && mapping[was[i].param0] == 0xFFFF
    ensures var g := was[i].param0;
            Halfway(d, was, now[i := was[i].(param0 := count)], mapping[g := count], nimap[count := NameOf(d, g)],
                    count + 1, i + 1)
  {
    NewEntryFits(d, mapping, nimap, count, was[i].param0);
    NewIdRenumbers(d, was, now, mapping, nimap, count, i);
  }

  lemma NextUntouched(
    d: Defs, was: seq<MapNode>, now: seq<MapNode>, mapping: seq<U16>, nimap: map<U16, string>, count: nat, i: nat
  )
    requires Valid(d) && Halfway(d, was, now, mapping, nimap, count, i) && i < |was|
    ensures |now| == |was| && now[i] == was[i] && |mapping| == 0x1_0000 && count <= i
  {
  }

  method GetBlockNodeIdMapping(nodes: array<MapNode>, defs: NodeDefManager) returns (nimap: map<U16, string>)
    requires nodes.Length == NODECOUNT && Valid(defs.State())
    modifies nodes
    ensures Renumbered(defs.State(), old(nodes[..]), nodes[..], nimap)
  {
    ghost var d, was := defs.State(), nodes[..];
    var mapping := new U16[0x1_0000](_ => 0xFFFF);
    nimap := map[];
    var idCounter := 0;
    ghost var now, table := nodes[..], mapping[..];
    NothingYet(d, was, table);
    for i := 0 to NODECOUNT
      invariant idCounter >= 0 && fresh(mapping) && now == nodes[..] && table == mapping[..]
      invariant Halfway(d, was, now, table, nimap, idCounter, i)
    {
      NextUntouched(d, was, now, table, nimap, idCounter, i);
      var node := nodes[i];
      var globalId := node.param0;
      if mapping[globalId] != 0xFFFF {
        StepKnown(d, was, now, table, nimap, idCounter, i);
        now := now[i := node.(param0 := table[globalId])];
        Put(nodes, i, node.(param0 := mapping[globalId]));
      } else {
        StepNew(d, was, now, table, nimap, idCounter, i);
        now, table := now[i := node.(param0 := idCounter)], table[globalId := idCounter];
        var id := idCounter;
        idCounter := idCounter + 1;
        Put(mapping, globalId, id);
        var name := defs.GetName(globalId);
        nimap := nimap[id := name];
        Put(nodes, i, node.(param0 := id));
      }
    }
    AllRenumbered(d, was, now, table, nimap, idCounter);
  }

  // ----- Correcting -----

  /** The loop comes to its end, or a search never does, or an assertion fails. */
  datatype Ending = Finished | Hangs | Aborts

  datatype Corrected = Corrected(d: Defs, nodes: seq<MapNode>, ending: Ending)

  /**
   Each node from `i` on gets the id its name resolves to, one look-up per node; without a
   name or an id for it, it is left as it is.
   */
  function CorrectFrom(d: Defs, nimap: map<U16, string>, nodes: seq<MapNode>, i: nat): (r: Corrected)
    requires i <= |nodes|
    ensures |r.nodes| == |nodes|
    decreases |nodes| - i
  {
    if i == |nodes| then Corrected(d, nodes, Finished)
    else if nodes[i].param0 !in nimap then CorrectFrom(d, nimap, nodes, i + 1)
    else
      match Resolve(d, nimap[nodes[i].param0])
      case Resolved(d', id) => CorrectFrom(d', nimap, nodes[i := nodes[i].(param0 := id)], i + 1)
      case Exhausted => CorrectFrom(d, nimap, nodes, i + 1)
      case Endless => Corrected(d, nodes, Hangs)
      case Nameless => Corrected(d, nodes, Aborts)
  }

  ghost predicate Named(nimap: map<U16, string>) {
    forall id :: id in nimap ==> nimap[id] != ""
  }

  /**
   The shortcut for a node like the previous one changes nothing: the outcome, registry
   included, is that of one look-up per node.
   */
  method CorrectBlockNodeIds(nimap: map<U16, string>, nodes: array<MapNode>, defs: NodeDefManager)
    returns (ending: Ending)
    requires Valid(defs.State())
    modifies nodes, defs
    ensures Corrected(defs.State(), nodes[..], ending) == CorrectFrom(old(defs.State()), nimap, old(nodes[..]), 0)
  {
    ghost var all := CorrectFrom(defs.State(), nimap, nodes[..], 0);
    var previousExists, previousLocalId, previousGlobalId := false, CONTENT_IGNORE, CONTENT_IGNORE;
    for i := 0 to nodes.Length
      invariant Valid(defs.State())
      invariant CorrectFrom(defs.State(), nimap, nodes[..], i) == all
      invariant previousExists ==>
                  previousLocalId in nimap && Known(defs.State(), nimap[previousLocalId]) == Some(previousGlobalId)
    {
      var localId := nodes[i].param0;
      if previousExists && localId == previousLocalId {
        Put(nodes, i, nodes[i].(param0 := previousGlobalId));
      } else if localId !in nimap {
        previousExists := false;
      } else {
        var name := nimap[localId];
        ghost var before, nodesBefore := defs.State(), nodes[..];
        var found, globalId := defs.GetId(name);
        if !found {
          if name == "" {
            return Aborts;
          }
          var endless;
          globalId, endless := defs.AllocateDummy(name);
          if endless {
            return Hangs;
          }
        }
        NeverIgnored(before, name);
        if !found && globalId == CONTENT_IGNORE {
          previousExists := false;
        } else {
          ResolveIsLasting(before, name, name);
          Put(nodes, i, nodes[i].(param0 := globalId));
          previousLocalId, previousGlobalId, previousExists := localId, globalId, true;
        }
      }
    }
    ending := Finished;
  }

  /** An id for a name without an alias entry is never the one that reports a failure. */
  lemma NeverIgnored(d: Defs, name: string)
    requires Valid(d)
    ensures name !in d.aliases && Resolve(d, name).Resolved? ==> Resolve(d, name).id != CONTENT_IGNORE
  {
  }

  // ----- What correcting achieves -----

  /** A node has the id its name is known by in the end; failing that, its old one. */
  ghost predicate Right(d: Defs, nimap: map<U16, string>, was: MapNode, now: MapNode) {
    if was.param0 in nimap && Known(d, nimap[was.param0]).Some?
    then now == was.(param0 := Known(d, nimap[was.param0]).value)
    else now == was
  }

  lemma {:induction false} ExhaustedForGood(d: Defs, nimap: map<U16, string>, nodes: seq<MapNode>, i: nat)
    requires i <= |nodes| && FirstFree(d.features, d.next) >= 0x1_0000 && d.next > 0
    ensures var r := CorrectFrom(d, nimap, nodes, i); r.d == d && r.ending != Hangs
    decreases |nodes| - i
  {
    if i < |nodes| {
      var next := if nodes[i].param0 in nimap && Known(d, nimap[nodes[i].param0]).Some?
        then nodes[i := nodes[i].(param0 := Known(d, nimap[nodes[i].param0]).value)] else nodes;
      ExhaustedForGood(d, nimap, next, i + 1);
    }
  }

  lemma {:induction false} CorrectIsRight(d: Defs, nimap: map<U16, string>, nodes: seq<MapNode>, i: nat)
    requires i <= |nodes| && Valid(d)
    ensures var r := CorrectFrom(d, nimap, nodes, i);
            && Valid(r.d) && r.nodes[..i] == nodes[..i]
            && (forall name :: Known(d, name).Some? ==> Known(r.d, name) == Known(d, name))
            && (r.ending == Finished ==> forall j :: i <= j < |nodes| ==> Right(r.d, nimap, nodes[j], r.nodes[j]))
    decreases |nodes| - i
  {
    if i < |nodes| {
      var r := CorrectFrom(d, nimap, nodes, i);
      if nodes[i].param0 !in nimap {
        CorrectIsRight(d, nimap, nodes, i + 1);
        assert r.nodes[i] == r.nodes[..i + 1][i] == nodes[i];
      } else {
        var name := nimap[nodes[i].param0];
        match Resolve(d, name)
        case Resolved(d', id) =>
          var nodes' := nodes[i := nodes[i].(param0 := id)];
          ResolveIsLasting(d, name, name);
          forall other | Known(d, other).Some? ensures Known(d', other) == Known(d, other) {
            ResolveIsLasting(d, name, other);
          }
          CorrectIsRight(d', nimap, nodes', i + 1);
          assert r.nodes[i] == r.nodes[..i + 1][i] == nodes'[i];
          assert r.nodes[..i] == r.nodes[..i + 1][..i] == nodes'[..i + 1][..i] == nodes[..i];
        case Exhausted =>
          ExhaustedForGood(d, nimap, nodes, i + 1);
          CorrectIsRight(d, nimap, nodes, i + 1);
          assert r.nodes[i] == r.nodes[..i + 1][i] == nodes[i];
        case _ =>
      }
    }
  }

  // ----- Room for the unknown names -----

  ghost function Missing(d: Defs, nimap: map<U16, string>): set<string> {
    set id | id in nimap && Known(d, nimap[id]) == None :: nimap[id]
  }

  lemma ResolvingFindsRoom(d: Defs, nimap: map<U16, string>, name: string)
    requires Valid(d) && Named(nimap) && name in nimap.Values && |Missing(d, nimap)| <= |FreeIds(d)|
    ensures var r := Resolve(d, name); r.Resolved? && |Missing(r.d, nimap)| <= |FreeIds(r.d)|
  {
    if Known(d, name) == None {
      var id :| id in nimap && nimap[id] == name;
      assert name in Missing(d, nimap);
      AllocationUsesOne(d, name);
      var r := Resolve(d, name);
      forall other | other in Missing(r.d, nimap) ensures other in Missing(d, nimap) - {name} {
        ResolveIsLasting(d, name, other);
      }
      SubsetSize(Missing(r.d, nimap), Missing(d, nimap) - {name});
      assert |Missing(d, nimap) - {name}| == |Missing(d, nimap)| - 1;
    }
  }

  lemma {:induction false} RoomForAll(d: Defs, nimap: map<U16, string>, nodes: seq<MapNode>, i: nat)
    requires i <= |nodes| && Valid(d) && Named(nimap) && |Missing(d, nimap)| <= |FreeIds(d)|
    ensures var r := CorrectFrom(d, nimap, nodes, i);
            r.ending == Finished
            && forall j :: i <= j < |nodes| && nodes[j].param0 in nimap ==> Known(r.d, nimap[nodes[j].param0]).Some?
    decreases |nodes| - i
  {
    if i < |nodes| {
      if nodes[i].param0 !in nimap {
        RoomForAll(d, nimap, nodes, i + 1);
      } else {
        var name := nimap[nodes[i].param0];
        ResolvingFindsRoom(d, nimap, name);
        var r := Resolve(d, name);
        ResolveIsLasting(d, name, name);
        var nodes' := nodes[i := nodes[i].(param0 := r.id)];
        RoomForAll(r.d, nimap, nodes', i + 1);
        CorrectIsRight(r.d, nimap, nodes', i + 1);
        var end := CorrectFrom(d, nimap, nodes, i);
        forall j | i <= j < |nodes| && nodes[j].param0 in nimap ensures Known(end.d, nimap[nodes[j].param0]).Some? {
          assert j > i ==> nodes'[j] == nodes[j];
        }
      }
    }
  }

  // ----- The round trip -----

  /**
   Written to disk under one registry and read back under another with room for the names
   it does not know: every node has the id by which its old name is now known, and its two
   parameters unchanged.
   */
  lemma DiskRoundTrip(saved: Defs, was: seq<MapNode>, onDisk: seq<MapNode>, nimap: map<U16, string>, bytes: seq<U8>,
                      loaded: Defs, read: seq<MapNode>)
    requires Valid(saved) && Valid(loaded) && Renumbered(saved, was, onDisk, nimap)
    requires LaidOut(onDisk, bytes) && LaidOut(read, bytes)
    requires |Missing(loaded, nimap)| <= |FreeIds(loaded)|
    ensures var r := CorrectFrom(loaded, nimap, read, 0);
            && r.ending == Finished && |r.nodes| == |was|
            && (forall i :: 0 <= i < |was| ==>
                  && r.nodes[i].param1 == was[i].param1 && r.nodes[i].param2 == was[i].param2
                  && Known(r.d, NameOf(saved, was[i].param0)) == Some(r.nodes[i].param0))
            && (forall name :: Known(loaded, name).Some? ==> Known(r.d, name) == Known(loaded, name))
  {
    LayoutIsBijective(onDisk, bytes, read, bytes);
    CorrectIsRight(loaded, nimap, read, 0);
    RoomForAll(loaded, nimap, read, 0);
    var r := CorrectFrom(loaded, nimap, read, 0);
    forall i | 0 <= i < |was|
      ensures r.nodes[i].param1 == was[i].param1 && r.nodes[i].param2 == was[i].param2
      ensures Known(r.d, NameOf(saved, was[i].param0)) == Some(r.nodes[i].param0)
    {
      assert Right(r.d, nimap, read[i], r.nodes[i]);
    }
  }

  /**
   Node by node, what it takes to come back unchanged: the name leads back to the id, or
   nowhere for lack of free ids, and the local id happens to be the old one.
   */
  ghost predicate ComesBack(d: Defs, was: MapNode, onDisk: MapNode)
    requires Valid(d)
  {
    || Known(d, NameOf(d, was.param0)) == Some(was.param0)
    || (Known(d, NameOf(d, was.param0)) == None && NoFreeId(d) && onDisk == was)
  }

  ghost predicate NoFreeId(d: Defs) {
    FirstFree(d.features, d.next) >= 0x1_0000 && d.next > 0
  }

  /** Back under the same registry, the very nodes return, and leave it as it was, exactly if each comes back. */
  lemma SameRegistryRoundTrip(d: Defs, was: seq<MapNode>, onDisk: seq<MapNode>, nimap: map<U16, string>)
    requires Valid(d) && Renumbered(d, was, onDisk, nimap)
    ensures CorrectFrom(d, nimap, onDisk, 0) == Corrected(d, was, Finished)
            <==> forall i :: 0 <= i < |was| ==> ComesBack(d, was[i], onDisk[i])
  {
    CorrectIsRight(d, nimap, onDisk, 0);
    var r := CorrectFrom(d, nimap, onDisk, 0);
    if forall i :: 0 <= i < |was| ==> ComesBack(d, was[i], onDisk[i]) {
      AllLookedUp(d, nimap, onDisk, 0);
      forall i | 0 <= i < |was| ensures r.nodes[i] == was[i] {
        assert ComesBack(d, was[i], onDisk[i]) && Right(r.d, nimap, onDisk[i], r.nodes[i]);
      }
    } else if r == Corrected(d, was, Finished) {
      forall i | 0 <= i < |was| ensures ComesBack(d, was[i], onDisk[i]) {
        assert Right(r.d, nimap, onDisk[i], r.nodes[i]);
        UnknownNeedsNoRoom(d, nimap, onDisk, 0, i);
      }
    }
  }

  /** A look-up that changes nothing: the name is known, or the ids are exhausted. */
  ghost predicate LookedUp(d: Defs, nimap: map<U16, string>, id: U16) {
    id in nimap ==> Known(d, nimap[id]).Some? || (nimap[id] != "" && NoFreeId(d))
  }

  lemma {:induction false} AllLookedUp(d: Defs, nimap: map<U16, string>, nodes: seq<MapNode>, i: nat)
    requires i <= |nodes| && forall j :: i <= j < |nodes| ==> LookedUp(d, nimap, nodes[j].param0)
    ensures CorrectFrom(d, nimap, nodes, i).ending == Finished && CorrectFrom(d, nimap, nodes, i).d == d
    decreases |nodes| - i
  {
    if i < |nodes| {
      assert LookedUp(d, nimap, nodes[i].param0);
      var next := if nodes[i].param0 in nimap && Known(d, nimap[nodes[i].param0]).Some?
        then nodes[i := nodes[i].(param0 := Known(d, nimap[nodes[i].param0]).value)] else nodes;
      AllLookedUp(d, nimap, next, i + 1);
    }
  }

  /** If the registry comes out as it was, every look-up has been of that kind. */
  lemma {:induction false} UnknownNeedsNoRoom(d: Defs, nimap: map<U16, string>, nodes: seq<MapNode>, i: nat, j: nat)
    requires i <= j < |nodes| && Valid(d)
    requires CorrectFrom(d, nimap, nodes, i).ending == Finished && CorrectFrom(d, nimap, nodes, i).d == d
    ensures LookedUp(d, nimap, nodes[j].param0)
    decreases |nodes| - i
  {
    if nodes[i].param0 !in nimap || Known(d, nimap[nodes[i].param0]).Some? {
      if i < j {
        var next := if nodes[i].param0 !in nimap then nodes
          else nodes[i := nodes[i].(param0 := Known(d, nimap[nodes[i].param0]).value)];
        UnknownNeedsNoRoom(d, nimap, next, i + 1, j);
      }
    } else {
      var name := nimap[nodes[i].param0];
      if Resolve(d, name).Resolved? {
        ResolveIsLasting(d, name, name);
        CorrectIsRight(Resolve(d, name).d, nimap, nodes[i := nodes[i].(param0 := Resolve(d, name).id)], i + 1);
      } else if i < j {
        UnknownNeedsNoRoom(d, nimap, nodes, i + 1, j);
      }
    }
  }
}
