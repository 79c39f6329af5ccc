/** A map block's nodes written to disk or to the network, and read back. */
module MapBlocks {
  import opened Common
  import opened NodeCodec
  import opened NodeDefs
  import opened BlockNodes
  import NameIds

  class MapBlock {
    const data: array<MapNode>

    constructor ()
      ensures data.Length == NODECOUNT && fresh(data)
    {
      data := new MapNode[NODECOUNT](_ => MapNode(CONTENT_IGNORE, 0, 0));
    }

    /**
     The node part of a block: for the disk, renumbered in a copy and preceded by the table
     of names; for the network as it is.  Returns no table where the code throws.
     */
    method SerializeNodes(defs: NodeDefManager, disk: bool)
      returns (text: Option<string>, buf: array<U8>, ghost written: seq<MapNode>, ghost nimap: map<U16, string>,
               ghost entries: seq<NameIds.Entry>)
      requires data.Length == NODECOUNT && Valid(defs.State())
      ensures fresh(buf)
      ensures text.Some? || !disk ==> LaidOut(written, buf[..])
      ensures disk ==> Renumbered(defs.State(), data[..], written, nimap)
      ensures disk && text.Some? ==> NameIds.Short(entries) && NameIds.IsListing(entries, nimap) && |nimap| <= 0xFFFF
      ensures disk && text.Some? ==>
                text.value == NameIds.VERSION + NameIds.WordText(|nimap| % 0x1_0000)
                + NameIds.Written(NameIds.EntryText, entries)
      ensures !disk ==> written == data[..]
    {
      nimap, entries, written, text := map[], [], data[..], None;
      if disk {
        var tmpNodes := new MapNode[NODECOUNT](i requires 0 <= i < NODECOUNT reads this, data => data[i]);
        assert tmpNodes[..] == data[..];
        var table := GetBlockNodeIdMapping(tmpNodes, defs);
        nimap, written := table, tmpNodes[..];
        text, entries := NameIds.SerializeV1(table);
        buf := SerializeBulkV1(tmpNodes);
      } else {
        buf := SerializeBulkV1(data);
      }
    }

    /**
     Reads the node part back, by way of a new buffer of unknown contents.  `bad` tells that
     the code throws, `ending` how correcting the ids ends.
     */
    method DeserializeNodes(text: string, stream: seq<U8>, buffer: seq<U8>, disk: bool, defs: NodeDefManager)
      returns (bad: bool, ending: Ending)
      requires data.Length == NODECOUNT && |buffer| == 4 * NODECOUNT && Valid(defs.State())
      modifies data, defs
      ensures bad <==> disk && NameIds.ReadTable(text).None?
      ensures !disk ==> LaidOut(data[..], Filled(buffer, stream)) && ending == Finished
      ensures disk && !bad ==> exists read ::
                LaidOut(read, Filled(buffer, stream)) && Corrected(defs.State(), data[..], ending)
                                        == CorrectFrom(old(defs.State()), NameIds.ReadTable(text).value.table, read, 0)
    {
      bad, ending := false, Finished;
      if disk {
        var r := NameIds.DeSerialize(text);
        if r.None? {
          return true, Finished;
        }
        var _ := DeSerializeBulkV1(stream, buffer, data);
        ghost var read := data[..];
        ending := CorrectBlockNodeIds(r.value.table, data, defs);
        assert LaidOut(read, Filled(buffer, stream));
      } else {
        var _ := DeSerializeBulkV1(stream, buffer, data);
      }
    }
  }

  /**
   From one registry to disk and back under another, through both encodings: each node gets
   the id its old name has now, and keeps its parameters.
   */
  lemma BlockRoundTrip(saved: Defs, was: seq<MapNode>, written: seq<MapNode>, nimap: map<U16, string>,
                       entries: seq<NameIds.Entry>,
                       bytes: seq<U8>, tail: string, loaded: Defs, read: seq<MapNode>)
    requires Valid(saved) && Valid(loaded) && Renumbered(saved, was, written, nimap)
    requires NameIds.Short(entries) && NameIds.IsListing(entries, nimap) && |nimap| <= 0xFFFF
    requires LaidOut(written, bytes) && LaidOut(read, bytes)
    requires |Missing(loaded, nimap)| <= |FreeIds(loaded)|
    ensures var text := NameIds.VERSION + NameIds.WordText(|nimap|) + NameIds.Written(NameIds.EntryText, entries)
                        + tail;
            var table := NameIds.ReadTable(text);
            table == Some(NameIds.Read(nimap, tail)) &&
            var r := CorrectFrom(loaded, table.value.table, read, 0);
            && r.ending == Finished && |r.nodes| == |was|
            && (forall i :: 0 <= i < |was| ==>
                  && r.nodes[i].param1 == was[i].param1 && r.nodes[i].param2 == was[i].param2
                  && Known(r.d, NameOf(saved, was[i].param0)) == Some(r.nodes[i].param0))
            && (forall name :: Known(loaded, name).Some? ==> Known(r.d, name) == Known(loaded, name))
  {
    NameIds.TableRoundTrip(nimap, entries, tail);
    DiskRoundTrip(saved, was, written, nimap, bytes, loaded, read);
  }
}
