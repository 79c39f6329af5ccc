/** The registry of node definitions: names and ids, and the allocation of ids for unknown names. */
module NodeDefs {
  import opened Common

  const CONTENT_UNKNOWN: U16 := 125
  const CONTENT_AIR: U16 := 126
  const CONTENT_IGNORE: U16 := 127

  /**
   `features` holds the name at every id, "" where none is registered; `ids` maps names to
   ids, `aliases` names and their aliases; `next` is where the search for a free id begins.
   */
  datatype Defs = Defs(features: seq<string>, ids: map<string, U16>, aliases: map<string, U16>, next: U16)

  ghost predicate Valid(d: Defs) {
    && CONTENT_IGNORE < |d.features| <= 0x1_0000
    && d.features[CONTENT_UNKNOWN] == "unknown" && d.features[CONTENT_AIR] == "air"
    && d.features[CONTENT_IGNORE] == "ignore"
    && "ignore" in d.aliases
    && (forall name :: name in d.ids ==> d.ids[name] < |d.features| && d.features[d.ids[name]] == name && name != "")
  }

  /** The name of the features an id has; unregistered ids have those of "unknown". */
  function NameOf(d: Defs, id: U16): (name: string)
    requires Valid(d)
    ensures name != ""
    ensures id < |d.features| && d.features[id] != "" ==> name == d.features[id]
    ensures id >= |d.features| || d.features[id] == "" ==> name == "unknown"
  {
    if id < |d.features| && d.features[id] != "" then d.features[id] else d.features[CONTENT_UNKNOWN]
  }

  /** The id by which a name is known, be it an alias or one that has lost its alias entry. */
  function Known(d: Defs, name: string): Option<U16> {
    if name in d.aliases then Some(d.aliases[name])
    else if name in d.ids then Some(d.ids[name])
    else None
  }

  // ----- Allocation -----

  predicate Free(features: seq<string>, id: nat) {
    id >= |features| || features[id] == ""
  }

  /** The first free id from `id` on, in or out of range. */
  function FirstFree(features: seq<string>, id: nat): (r: nat)
    ensures r >= id && Free(features, r)
    ensures forall j :: id <= j < r ==> !Free(features, j)
    decreases |features| - id
  {
    if Free(features, id) then id else FirstFree(features, id + 1)
  }

  function Padded(features: seq<string>, n: nat): (r: seq<string>)
    ensures |r| == if n > |features| then n else |features|
    ensures forall i :: 0 <= i < |r| ==> r[i] == if i < |features| then features[i] else ""
  {
    if n > |features| then features + seq(n - |features|, _ => "") else features
  }

  /**
   Resolving a name: to a known id, to a newly allocated one, to none because the ids are
   exhausted, or not at all because the search for a free id goes round for ever, or because
   an unknown name is empty, which the allocation asserts it is not.
   */
  datatype Resolution =
    | Resolved(d: Defs, id: U16)
    | Exhausted
    | Endless
    | Nameless

  function Allocated(d: Defs, name: string, id: U16): Defs {
    Defs(Padded(d.features, id + 1)[id := name], d.ids[name := id],
         if name in d.aliases then d.aliases else d.aliases[name := id], (id + 1) % 0x1_0000)
  }

  function Resolve(d: Defs, name: string): Resolution {
    if Known(d, name).Some? then Resolved(d, Known(d, name).value)
    else if name == "" then Nameless
    else
      var id := FirstFree(d.features, d.next);
      if id < 0x1_0000 then Resolved(Allocated(d, name, id), id)
      else if d.next > 0 then Exhausted
      else Endless
  }

  lemma AllocatedValid(d: Defs, name: string)
    requires Valid(d) && name != "" && Known(d, name) == None && FirstFree(d.features, d.next) < 0x1_0000
    ensures Valid(Allocated(d, name, FirstFree(d.features, d.next)))
  {
    var id := FirstFree(d.features, d.next);
    var d' := Allocated(d, name, id);
    assert Free(d.features, id);
    forall other | other in d'.ids
      ensures d'.ids[other] < |d'.features| && d'.features[d'.ids[other]] == other && other != ""
    {
      if other != name {
        assert d.ids[other] < |d.features| && d.features[d.ids[other]] == other;
      }
    }
  }

  /** A resolved name is known ever after, and what was known before still is. */
  lemma ResolveIsLasting(d: Defs, name: string, other: string)
    requires Valid(d) && Resolve(d, name).Resolved?
    ensures var r := Resolve(d, name);
            && Valid(r.d) && Known(r.d, name) == Some(r.id)
            && (name in d.aliases ==> r.d == d && r.id == d.aliases[name])
            && (name !in d.aliases && name in d.ids ==> r.d == d && r.id == d.ids[name])
            && (Known(d, other).Some? ==> Known(r.d, other) == Known(d, other))
            && (Known(d, other) == None && other != name ==> Known(r.d, other) == None)
            && (forall id :: 0 <= id < |d.features| && d.features[id] != "" ==>
                  id < |r.d.features| && r.d.features[id] == d.features[id])
  {
    if Known(d, name) == None {
      AllocatedValid(d, name);
    }
  }

  /** An id that had to be allocated was free, and now carries the name. */
  lemma AllocatedIsFresh(d: Defs, name: string)
    requires Valid(d) && Known(d, name) == None && Resolve(d, name).Resolved?
    ensures var r := Resolve(d, name); Free(d.features, r.id) && NameOf(r.d, r.id) == name && r.id >= d.next
    ensures var r := Resolve(d, name); forall other :: other in d.ids ==> d.ids[other] != r.id
  {
    AllocatedValid(d, name);
  }

  // ----- Room for unknown names -----

  ghost function FreeIds(d: Defs): set<int> {
    set id | d.next <= id < 0x1_0000 && Free(d.features, id)
  }

  /** One allocation uses up one free id at most, and succeeds if there is one. */
  lemma AllocationUsesOne(d: Defs, name: string)
    requires Valid(d) && name != "" && Known(d, name) == None && |FreeIds(d)| > 0
    ensures Resolve(d, name).Resolved? && |FreeIds(Resolve(d, name).d)| >= |FreeIds(d)| - 1
  {
    var first := FirstFree(d.features, d.next);
    var some := Member(FreeIds(d));
    assert first <= some;
    var d' := Resolve(d, name).d;
    assert FreeIds(d) - {first} <= FreeIds(d') by {
      forall id | id in FreeIds(d) && id != first ensures id in FreeIds(d') {
        assert id > first;
      }
    }
    SubsetSize(FreeIds(d) - {first}, FreeIds(d'));
    assert |FreeIds(d) - {first}| >= |FreeIds(d)| - 1;
  }

  /** The registry object. */
  class NodeDefManager {
    var features: seq<string>
    var ids: map<string, U16>
    var aliases: map<string, U16>
    var next: U16

    ghost function State(): Defs
      reads this
    {
      Defs(features, ids, aliases, next)
    }

    /** An empty registry, but for the three built-in nodes. */
    constructor ()
      ensures Valid(State()) && next == 0
      ensures forall id :: 0 <= id < CONTENT_UNKNOWN ==> Free(features, id)
      ensures Known(State(), "unknown") == Some(CONTENT_UNKNOWN) && Known(State(), "air") == Some(CONTENT_AIR)
              && Known(State(), "ignore") == Some(CONTENT_IGNORE)
    {
      var none := seq(CONTENT_IGNORE + 1, _ => "");
      features := none[CONTENT_UNKNOWN := "unknown"][CONTENT_AIR := "air"][CONTENT_IGNORE := "ignore"];
      ids := map["unknown" := CONTENT_UNKNOWN, "air" := CONTENT_AIR, "ignore" := CONTENT_IGNORE];
      aliases := map["unknown" := CONTENT_UNKNOWN, "air" := CONTENT_AIR, "ignore" := CONTENT_IGNORE];
      next := 0;
    }

    method GetName(id: U16) returns (name: string)
      requires Valid(State())
      ensures name == NameOf(State(), id)
      ensures name == if id < |features| && features[id] != "" then features[id] else "unknown"
    {
      if id < |features| && features[id] != "" {
        return features[id];
      }
      name := features[CONTENT_UNKNOWN];
    }

    /**
     Searches for a free id, extending the table of features as it goes.  The 16-bit search
     index wraps around; begun at 0 and finding nothing, it would never stop: `endless`.
     */
    method AllocateId() returns (id: U16, endless: bool)
      requires |features| <= 0x1_0000
      modifies this`features, this`next
      ensures |features| <= 0x1_0000
      ensures var first := FirstFree(old(features), old(next));
              if first < 0x1_0000 then
                !endless && id == first && features == Padded(old(features), first + 1)
                && next == (first + 1) % 0x1_0000
              else
                features == old(features) && next == old(next) && endless == (next == 0) && id == CONTENT_IGNORE
    {
      var i: int := next;
      while i < 0x1_0000
        invariant next <= i <= 0x1_0000 && |features| <= 0x1_0000 && next == old(next)
        invariant features == if i == next then old(features) else Padded(old(features), i)
        invariant FirstFree(old(features), next) == FirstFree(old(features), i)
        invariant i > next ==> !Free(old(features), i - 1)
      {
        while i >= |features|
          invariant |old(features)| <= |features| <= 0x1_0000 && features == Padded(old(features), |features|)
          invariant next == old(next) && (|features| <= |old(features)| || |features| <= i + 1)
          decreases i + 1 - |features|
        {
          features := features + [""];
        }
        if features[i] == "" {
          next := (i + 1) % 0x1_0000;
          return i, false;
        }
        i := i + 1;
      }
      return CONTENT_IGNORE, next == 0;
    }

    /** Gives an unknown name a dummy definition. */
    method AllocateDummy(name: string) returns (id: U16, endless: bool)
      requires Valid(State()) && name != "" && name != "ignore" && name !in aliases
      modifies this
      ensures var r := Resolve(old(State()), name);
              match r
              case Resolved(d, i) => State() == d && id == i && !endless
              case Exhausted => State() == old(State()) && id == CONTENT_IGNORE && !endless
              case _ => State() == old(State()) && endless
    {
      endless := false;
      if name in ids {
        id := ids[name];
      } else {
        id, endless := AllocateId();
        if endless || id == CONTENT_IGNORE {
          return;
        }
        ids := ids[name := id];
        if name !in aliases {
          aliases := aliases[name := id];
        }
      }
      features := features[id := name];
    }

    method GetId(name: string) returns (found: bool, id: U16)
      ensures found <==> name in aliases
      ensures found ==> id == aliases[name]
    {
      found := name in aliases;
      id := if found then aliases[name] else CONTENT_IGNORE;
    }
  }
}
