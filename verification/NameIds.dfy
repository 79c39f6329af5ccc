/** The table of local ids and names, written to and read from a stream of characters. */
module NameIds {
  import opened Common
  import opened NodeCodec

  const STRING_MAX_LEN := 0xFFFF

  datatype Entry = Entry(id: U16, name: string)

  /** The format version, 1. */
  const VERSION := [1 as char]

  // ----- Writing -----

  /** Two bytes, the high one first. */
  function WordText(x: U16): (r: string)
    ensures |r| == 2 && r[0] as int * 256 + r[1] as int == x && r[1] as int < 256
  {
    [High(x) as char, Low(x) as char]
  }

  /** The length a name is written with; longer names are never written. */
  function Size16(s: string): U16 {
    if |s| <= STRING_MAX_LEN then |s| else STRING_MAX_LEN
  }

  function EntryText(e: Entry): string {
    WordText(e.id) + (WordText(Size16(e.name)) + e.name)
  }

  /** The concatenation of what `write` makes of each entry. */
  ghost function Written(write: Entry -> string, entries: seq<Entry>): string {
    if entries == [] then [] else write(entries[0]) + Written(write, entries[1..])
  }

  ghost predicate Short(entries: seq<Entry>) {
    forall i :: 0 <= i < |entries| ==> |entries[i].name| <= STRING_MAX_LEN
  }

  lemma {:induction false} WrittenAppend(write: Entry -> string, a: seq<Entry>, e: Entry)
    ensures Written(write, a + [e]) == Written(write, a) + write(e)
  {
    if a == [] {
      assert a + [e] == [e] && [e][1..] == [];
    } else {
      WrittenAppend(write, a[1..], e);
      assert (a + [e])[1..] == a[1..] + [e];
    }
  }

  /** The table the entries amount to, later ones overriding earlier ones. */
  ghost function TableOf(entries: seq<Entry>): map<U16, string> {
    if entries == [] then map[]
    else TableOf(entries[..|entries| - 1])[entries[|entries| - 1].id := entries[|entries| - 1].name]
  }

  /** The entries list the whole table, in whatever order. */
  ghost predicate IsListing(entries: seq<Entry>, table: map<U16, string>) {
    |entries| == |table| && TableOf(entries) == table
  }

  /** Throws, that is returns nothing, if a name is too long. */
  method SerializeV1(table: map<U16, string>) returns (text: Option<string>, ghost entries: seq<Entry>)
    ensures text.None? <==> exists id :: id in table && |table[id]| > STRING_MAX_LEN
    ensures text.Some? ==> Short(entries) && IsListing(entries, table)
    ensures text.Some? ==> text.value == VERSION + WordText(|table| % 0x1_0000) + Written(EntryText, entries)
  {
    entries := [];
    var body := "";
    var left := table.Keys;
    while left != {}
      invariant left <= table.Keys && Short(entries)
      invariant TableOf(entries) == table - left
      invariant |entries| + |left| == |table|
      invariant body == Written(EntryText, entries)
      decreases |left|
    {
      var id :| id in left;
      var name := table[id];
      if |name| > STRING_MAX_LEN {
        return None, entries;
      }
      body := body + EntryText(Entry(id, name));
      WrittenAppend(EntryText, entries, Entry(id, name));
      TableOfAppend(entries, Entry(id, name));
      OneFewer(table, left, id);
      entries := entries + [Entry(id, name)];
      left := left - {id};
    }
    assert TableOf(entries) == table;
    text := Some(VERSION + WordText(|table| % 0x1_0000) + body);
    forall id | id in table ensures |table[id]| <= STRING_MAX_LEN {
      ListedIsShort(entries, id);
    }
  }

  lemma OneFewer(table: map<U16, string>, left: set<U16>, id: U16)
    requires id in left && left <= table.Keys
    ensures table - (left - {id}) == (table - left)[id := table[id]]
  {
  }

  lemma {:induction false} ListedIsShort(entries: seq<Entry>, id: U16)
    requires Short(entries) && id in TableOf(entries)
    ensures |TableOf(entries)[id]| <= STRING_MAX_LEN
  {
    if entries != [] && entries[|entries| - 1].id != id {
      ListedIsShort(entries[..|entries| - 1], id);
    }
  }

  // ----- Reading -----

  datatype Number = Number(value: U16, rest: string)

  /** The streams modelled hold bytes only. */
  function Octet(c: char): U8 {
    if c as int < 0x100 then c as int else 0
  }

  /** A number read past the end is made up with zeros. */
  function ReadU16(text: string): Number {
    if |text| >= 2 then Number(Word(Octet(text[0]), Octet(text[1])), text[2..])
    else Number(if text == [] then 0 else Word(Octet(text[0]), 0), [])
  }

  datatype Text = Text(value: string, rest: string)

  /** A length of two bytes and as many bytes of text; nothing if there are too few. */
  function ReadString16(text: string): Option<Text> {
    if |text| < 2 then None
    else
      var size := ReadU16(text);
      if |size.rest| < size.value then None else Some(Text(size.rest[..size.value], size.rest[size.value..]))
  }

  datatype Piece = Piece(entry: Entry, rest: string)

  function ReadEntry(text: string): Option<Piece> {
    var id := ReadU16(text);
    var name := ReadString16(id.rest);
    if name.None? then None else Some(Piece(Entry(id.value, name.value.value), name.value.rest))
  }

  datatype Read = Read(table: map<U16, string>, rest: string)

  /** `count` entries, each read by `read`, are put into the table. */
  function ReadMany(read: string -> Option<Piece>, text: string, count: nat, table: map<U16, string>): Option<Read>
    decreases count
  {
    if count == 0 then Some(Read(table, text))
    else
      var p := read(text);
      if p.None? then None else ReadMany(read, p.value.rest, count - 1, table[p.value.entry.id := p.value.entry.name])
  }

  /** Reads the table from the front of a stream; returns nothing where the code throws. */
  function ReadTable(text: string): Option<Read> {
    if text == [] || Octet(text[0]) != 1 then None
    else
      var count := ReadU16(text[1..]);
      ReadMany(ReadEntry, count.rest, count.value, map[])
  }

  method DeSerialize(text: string) returns (r: Option<Read>)
    ensures r == ReadTable(text)
  {
    var version := if text == [] then 0 else Octet(text[0]);
    if version != 1 {
      return None;
    }
    var count := ReadU16(text[1..]);
    var rest := count.rest;
    var table: map<U16, string> := map[];
    for i := 0 to count.value
      invariant ReadMany(ReadEntry, rest, count.value - i, table) == ReadTable(text)
    {
      var id := ReadU16(rest);
      var name := ReadString16(id.rest);
      if name.None? {
        return None;
      }
      table := table[id.value := name.value.value];
      rest := name.value.rest;
    }
    r := Some(Read(table, rest));
  }

  // ----- The round trip -----

  lemma OctetRoundTrip(b: U8)
    ensures Octet(b as char) == b
  {
  }

  lemma NumberRoundTrip(x: U16, tail: string)
    ensures ReadU16(WordText(x) + tail) == Number(x, tail)
  {
    var text, high, low := WordText(x) + tail, High(x), Low(x);
    OctetRoundTrip(high);
    OctetRoundTrip(low);
    WordOfHalves(x);
    assert text[0] == high as char && text[1] == low as char && text[2..] == tail;
  }

  lemma TextRoundTrip(s: string, tail: string)
    requires |s| <= STRING_MAX_LEN
    ensures ReadString16(WordText(|s|) + (s + tail)) == Some(Text(s, tail))
  {
    NumberRoundTrip(|s|, s + tail);
    assert (s + tail)[..|s|] == s && (s + tail)[|s|..] == tail;
  }

  lemma Regroup(a: string, b: string, c: string)
    ensures a + b + c == a + (b + c)
  {
  }

  lemma PartsMakeAnEntry(id: string, size: string, e: Entry, after: string)
    requires ReadU16(id + (size + (e.name + after))) == Number(e.id, size + (e.name + after))
    requires ReadString16(size + (e.name + after)) == Some(Text(e.name, after))
    ensures ReadEntry(id + (size + e.name) + after) == Some(Piece(e, after))
  {
    Regroup(id, size + e.name, after);
    Regroup(size, e.name, after);
  }

  lemma EntryRoundTrip(e: Entry, after: string)
    requires |e.name| <= STRING_MAX_LEN
    ensures ReadEntry(EntryText(e) + after) == Some(Piece(e, after))
  {
    var id, size := WordText(e.id), WordText(|e.name|);
    NumberRoundTrip(e.id, size + (e.name + after));
    TextRoundTrip(e.name, after);
    PartsMakeAnEntry(id, size, e, after);
  }

  lemma TableOfAppend(done: seq<Entry>, e: Entry)
    ensures TableOf(done + [e]) == TableOf(done)[e.id := e.name]
  {
    assert (done + [e])[..|done|] == done;
  }

  ghost predicate ReadsBack(read: string -> Option<Piece>, write: Entry -> string, e: Entry, after: string) {
    read(write(e) + after) == Some(Piece(e, after))
  }

  /** Reading continues with the table of the entries read so far. */
  lemma {:induction false} EntriesRoundTrip(read: string -> Option<Piece>, write: Entry -> string,
                                            done: seq<Entry>, entries: seq<Entry>, tail: string)
    requires forall i, after :: 0 <= i < |entries| ==> ReadsBack(read, write, entries[i], after)
    ensures ReadMany(read, Written(write, entries) + tail, |entries|, TableOf(done)) ==
            Some(Read(TableOf(done + entries), tail))
    decreases |entries|
  {
    if entries == [] {
      assert done + entries == done && Written(write, entries) + tail == tail;
    } else {
      var e, rest := entries[0], entries[1..];
      Regroup(write(e), Written(write, rest), tail);
      assert ReadsBack(read, write, entries[0], Written(write, rest) + tail);
      TableOfAppend(done, e);
      EntriesRoundTrip(read, write, done + [e], rest, tail);
      assert (done + [e]) + rest == done + entries;
    }
  }

  lemma HeaderRoundTrip(n: U16, body: string)
    ensures ReadTable(VERSION + (WordText(n) + body)) == ReadMany(ReadEntry, body, n, map[])
  {
    NumberRoundTrip(n, body);
    assert (VERSION + (WordText(n) + body))[1..] == WordText(n) + body;
  }

  lemma BodyRoundTrip(entries: seq<Entry>, tail: string)
    requires Short(entries)
    ensures ReadMany(ReadEntry, Written(EntryText, entries) + tail, |entries|, map[]) ==
            Some(Read(TableOf(entries), tail))
  {
    forall i, after | 0 <= i < |entries| ensures ReadsBack(ReadEntry, EntryText, entries[i], after) {
      EntryRoundTrip(entries[i], after);
    }
    EntriesRoundTrip(ReadEntry, EntryText, [], entries, tail);
    assert [] + entries == entries;
  }

  lemma WholeRoundTrip(n: U16, body: string, tail: string)
    ensures ReadTable(VERSION + WordText(n) + body + tail) == ReadMany(ReadEntry, body + tail, n, map[])
  {
    var count := WordText(n);
    Regroup(VERSION + count, body, tail);
    Regroup(VERSION, count, body + tail);
    HeaderRoundTrip(n, body + tail);
  }

  /** What is written, in any order of entries, reads back as the same table, up to where it ends. */
  lemma TableRoundTrip(table: map<U16, string>, entries: seq<Entry>, tail: string)
    requires Short(entries) && IsListing(entries, table) && |table| <= 0xFFFF
    ensures ReadTable(VERSION + WordText(|table|) + Written(EntryText, entries) + tail) == Some(Read(table, tail))
  {
    WholeRoundTrip(|table|, Written(EntryText, entries), tail);
    BodyRoundTrip(entries, tail);
  }
}
