/** The index-aware path helpers of the extra-config modal
    (config-ui/src/extra_config_modal.rs): `get_at`, `set_at`, `remove_at`. */
module ModalPaths {
  import opened Prelude
  import opened Documents

  function ItemsOf(doc: Json): seq<Json> {
    if doc.Arr? then doc.items else []
  }

  function FieldsOf(doc: Json): map<string, Json> {
    if doc.Obj? then doc.fields else map[]
  }

  /** What `set_at` finds in a slot: null if there is nothing yet. */
  function SlotValue(doc: Json, slot: Slot): Json {
    var child := Child(Some(doc), slot);
    if child.Some? then child.value else Null
  }

  /** `doc` with one slot assigned: a container of the wrong kind is replaced, an
      array is padded with nulls. */
  function WithSlot(doc: Json, slot: Slot, value: Json): Json {
    match slot
    case Index(i) => Arr(PadTo(ItemsOf(doc), i + 1, Null)[i := value])
    case Key(k) => Obj(FieldsOf(doc)[k := value])
  }

  /** `set_at` as a function. */
  function Put(doc: Json, path: seq<Slot>, value: Json): Json
    decreases |path|
  {
    if path == [] then value
    else WithSlot(doc, path[0], Put(SlotValue(doc, path[0]), path[1..], value))
  }

  /** `remove_at` as a function. */
  function Delete(doc: Json, path: seq<Slot>): Json
    decreases |path|
  {
    if path == [] then
      Null
    else if |path| == 1 then
      match (doc, path[0])
      case (Arr(items), Index(i)) =>
        if i < |items| then Arr(items[..i] + items[i + 1..]) else doc
      case (Obj(fields), Key(k)) => Obj(fields - {k})
      case _ => doc
    else
      match (doc, path[0])
      case (Arr(items), Index(i)) =>
        if i < |items| then Arr(items[i := Delete(items[i], path[1..])]) else doc
      case (Obj(fields), Key(k)) =>
        if k in fields then Obj(fields[k := Delete(fields[k], path[1..])]) else doc
      case _ => doc
  }

  // ---- lens laws ---------------------------------------------------------

  lemma SlotLaws(doc: Json, slot: Slot, first: Json, second: Json)
    ensures Child(Some(WithSlot(doc, slot, first)), slot) == Some(first)
    ensures WithSlot(WithSlot(doc, slot, first), slot, second) == WithSlot(doc, slot, second)
  {
    match slot
    case Index(i) =>
      var items := PadTo(ItemsOf(doc), i + 1, Null);
      assert items[i := first][i := second] == items[i := second];
    case Key(k) =>
      assert FieldsOf(doc)[k := first][k := second] == FieldsOf(doc)[k := second];
  }

  /** Put then get: the value written is the value read, on every document and path. */
  lemma {:induction false} PutGet(doc: Json, path: seq<Slot>, value: Json)
    ensures Get(Some(Put(doc, path, value)), path) == Some(value)
    decreases |path|
  {
    if path != [] {
      var inner := SlotValue(doc, path[0]);
      PutGet(inner, path[1..], value);
      SlotLaws(doc, path[0], Put(inner, path[1..], value), Null);
    }
  }

  /** Put twice: the second write hides the first completely. */
  lemma {:induction false} PutPut(doc: Json, path: seq<Slot>, first: Json, second: Json)
    ensures Put(Put(doc, path, first), path, second) == Put(doc, path, second)
    decreases |path|
  {
    if path != [] {
      var inner := SlotValue(doc, path[0]);
      PutPut(inner, path[1..], first, second);
      SlotLaws(doc, path[0], Put(inner, path[1..], first), Put(inner, path[1..], second));
    }
  }

  /** Get then put: writing back what is there changes nothing. */
  lemma {:induction false} GetPut(doc: Json, path: seq<Slot>, value: Json)
    requires Get(Some(doc), path) == Some(value)
    ensures Put(doc, path, value) == doc
    decreases |path|
  {
    if path != [] {
      if Child(Some(doc), path[0]).None? {
        GetMissing(path[1..]);
        assert false;
      } else {
        match path[0]
        case Index(i) =>
          GetPut(doc.items[i], path[1..], value);
          assert doc.items[i := doc.items[i]] == doc.items;
        case Key(k) =>
          GetPut(doc.fields[k], path[1..], value);
          assert doc.fields[k := doc.fields[k]] == doc.fields;
      }
    }
  }

  /** At the point where two diverging paths part, both name keys or both name indices. */
  predicate SameKindSplit(p: seq<Slot>, q: seq<Slot>)
    requires Diverge(p, q)
    decreases |p|
  {
    if p[0] != q[0] then p[0].Key? == q[0].Key? else SameKindSplit(p[1..], q[1..])
  }

  /** Writing at `path` keeps an existing value at a diverging path exactly when
      the two paths part with segments of the same kind; otherwise the container
      they part in is replaced and the other value is lost. */
  lemma {:induction false} PutKeepsOthers(doc: Json, path: seq<Slot>, other: seq<Slot>, value: Json)
    requires Diverge(path, other)
    requires Get(Some(doc), other).Some?
    ensures Get(Some(Put(doc, path, value)), other) ==
            if SameKindSplit(path, other) then Get(Some(doc), other) else None
    decreases |path|
  {
    var child := Child(Some(doc), other[0]);
    if child.None? {
      GetMissing(other[1..]);
      assert false;
    } else if path[0] == other[0] {
      PutKeepsOthers(child.value, path[1..], other[1..], value);
    } else if !SameKindSplit(path, other) {
      GetMissing(other[1..]);
    }
  }

  /** The document to start from when the old one may be missing. */
  function OrNull(doc: Option<Json>): Json {
    if doc.Some? then doc.value else Null
  }

  /** Along a path that fits, writing moves nothing at any diverging path: absent
      stays absent, present stays equal. */
  lemma {:induction false} PutFrame(doc: Option<Json>, path: seq<Slot>, other: seq<Slot>, value: Json)
    requires Diverge(path, other) && Fits(doc, path)
    ensures Get(Some(Put(OrNull(doc), path, value)), other) == Get(doc, other)
    decreases |path|
  {
    if path[0] == other[0] {
      PutFrame(Child(doc, path[0]), path[1..], other[1..], value);
    } else {
      assert Child(Some(Put(OrNull(doc), path, value)), other[0]) == Child(doc, other[0]);
    }
  }

  // ---- what is written and removed at the end of a path ---------------------------

  /** Writing at the end of a path is writing a changed container at the rest of it. */
  lemma {:induction false} PutBelow(doc: Json, path: seq<Slot>, slot: Slot, value: Json)
    ensures Put(doc, path + [slot], value) == Put(doc, path, WithSlot(OrNull(Get(Some(doc), path)), slot, value))
    decreases |path|
  {
    if path == [] {
      assert path + [slot] == [slot];
    } else {
      assert (path + [slot])[1..] == path[1..] + [slot];
      if Child(Some(doc), path[0]).None? {
        PutBelow(Null, path[1..], slot, value);
        GetMissing(path[1..]);
        GetNull(path[1..]);
      } else {
        PutBelow(Child(Some(doc), path[0]).value, path[1..], slot, value);
      }
    }
  }

  lemma GetNull(path: seq<Slot>)
    ensures Get(Some(Null), path) == if path == [] then Some(Null) else None
  {
    if path != [] {
      GetMissing(path[1..]);
    }
  }

  /** A write at an index: the array there, or a new one in place of anything else, grows
      with nulls as far as needed and keeps every other element. */
  lemma PutItem(doc: Json, path: seq<Slot>, i: nat, value: Json)
    ensures var before := Get(Some(doc), path);
            var items := if before.Some? && before.value.Arr? then before.value.items else [];
            var now := Get(Some(Put(doc, path + [Index(i)], value)), path);
            && now.Some? && now.value.Arr?
            && |now.value.items| == (if |items| <= i then i + 1 else |items|)
            && forall j :: 0 <= j < |now.value.items| ==>
                 now.value.items[j] == if j == i then value else if j < |items| then items[j] else Null
  {
    PutBelow(doc, path, Index(i), value);
    PutGet(doc, path, WithSlot(OrNull(Get(Some(doc), path)), Index(i), value));
  }

  /** A write at a key: the object there, or a new one in place of anything else, with that
      key set. */
  lemma PutField(doc: Json, path: seq<Slot>, k: string, value: Json)
    ensures var before := Get(Some(doc), path);
            var fields := if before.Some? && before.value.Obj? then before.value.fields else map[];
            Get(Some(Put(doc, path + [Key(k)], value)), path) == Some(Obj(fields[k := value]))
  {
    PutBelow(doc, path, Key(k), value);
    PutGet(doc, path, WithSlot(OrNull(Get(Some(doc), path)), Key(k), value));
  }

  /** A removal at an index takes that element out and moves the later ones up; at a key it
      takes the field out; where there is no such slot it changes nothing; and nothing but
      the container at `path` changes. */
  lemma {:induction false} DeleteAtEnd(doc: Json, path: seq<Slot>, slot: Slot)
    ensures var before := Get(Some(doc), path);
            Delete(doc, path + [slot]) ==
            if Child(before, slot).None? then doc
            else match before.value
                 case Arr(items) => Put(doc, path, Arr(items[..slot.at] + items[slot.at + 1..]))
                 case Obj(fields) => Put(doc, path, Obj(fields - {slot.name}))
    decreases |path|
  {
    if path == [] {
      assert path + [slot] == [slot];
      if doc.Obj? && slot.Key? && slot.name !in doc.fields {
        assert doc.fields - {slot.name} == doc.fields;
      }
    } else {
      assert (path + [slot])[1..] == path[1..] + [slot];
      var child := Child(Some(doc), path[0]);
      if child.None? {
        GetMissing(path[1..]);
      } else {
        DeleteAtEnd(child.value, path[1..], slot);
        SameChild(doc, path[0]);
      }
    }
  }

  lemma SameChild(doc: Json, slot: Slot)
    requires Child(Some(doc), slot).Some?
    ensures forall value :: WithSlot(doc, slot, value) ==
                            match doc
                            case Arr(items) => Arr(items[slot.at := value])
                            case Obj(fields) => Obj(fields[slot.name := value])
    ensures WithSlot(doc, slot, Child(Some(doc), slot).value) == doc
  {
    match doc
    case Arr(items) => assert items[slot.at := items[slot.at]] == items;
    case Obj(fields) => assert fields[slot.name := fields[slot.name]] == fields;
  }

  /** The container a mutable cursor goes through at a slot, repaired first. */
  function Enter(doc: Json, slot: Slot): (frame: Frame)
    ensures forall value :: Fill(frame, value) == WithSlot(doc, slot, value)
  {
    match slot
    case Index(i) => InArr(PadTo(ItemsOf(doc), i + 1, Null), i)
    case Key(k) => InObj(FieldsOf(doc), k)
  }

  // ---- the in-place code -------------------------------------------------

  /** The signal holding the document the modal works on. */
  class Working {
    var doc: Json

    constructor (initial: Json)
      ensures doc == initial
    {
      doc := initial;
    }

    /** extra_config_modal.rs `get_at`: a read-only walk. */
    method GetAt(path: seq<string>) returns (found: Option<Json>)
      ensures found == Get(Some(doc), SlotsOf(path))
    {
      var slots := SlotsOf(path);
      var cur := doc;
      var i := 0;
      while i < |path|
        invariant 0 <= i <= |path|
        invariant Get(Some(cur), slots[i..]) == Get(Some(doc), slots)
      {
        var next := Child(Some(cur), slots[i]);
        assert slots[i..][1..] == slots[i + 1..];
        if next.None? {
          GetMissing(slots[i + 1..]);
          return None;
        }
        cur := next.value;
        i := i + 1;
      }
      return Some(cur);
    }

    /** extra_config_modal.rs `set_at`: walk a mutable cursor, repairing the
        container at every step, and assign at the end. */
    method SetAt(path: seq<string>, value: Json)
      modifies this
      ensures doc == Put(old(doc), SlotsOf(path), value)
    {
      var slots := SlotsOf(path);
      var cur, trail := doc, [];
      var i := 0;
      while i < |path|
        invariant 0 <= i <= |path|
        invariant doc == old(doc)
        invariant Put(doc, slots, value) == Plug(trail, Put(cur, slots[i..], value))
      {
        assert slots[i..][1..] == slots[i + 1..];
        var frame := Enter(cur, slots[i]);
        PlugStep(trail, frame, Put(SlotValue(cur, slots[i]), slots[i + 1..], value));
        trail := trail + [frame];
        cur := SlotValue(cur, slots[i]);
        i := i + 1;
      }
      doc := Plug(trail, value);
    }

    /** extra_config_modal.rs `remove_at`: give up at the first missing step. */
    method RemoveAt(path: seq<string>)
      modifies this
      ensures doc == Delete(old(doc), SlotsOf(path))
    {
      var slots := SlotsOf(path);
      if path == [] {
        doc := Null;
        return;
      }
      var cur, trail := doc, [];
      var i := 0;
      while i < |path| - 1
        invariant 0 <= i <= |path| - 1
        invariant doc == old(doc) == Plug(trail, cur)
        invariant Delete(doc, slots) == Plug(trail, Delete(cur, slots[i..]))
      {
        assert slots[i..][1..] == slots[i + 1..];
        var next := Child(Some(cur), slots[i]);
        if next.None? {
          return;
        }
        var frame := if cur.Arr? then InArr(cur.items, slots[i].at) else InObj(cur.fields, slots[i].name);
        assert Fill(frame, next.value) == cur;
        PlugStep(trail, frame, next.value);
        PlugStep(trail, frame, Delete(next.value, slots[i + 1..]));
        trail := trail + [frame];
        cur := next.value;
        i := i + 1;
      }
      doc := Plug(trail, Delete(cur, [slots[|path| - 1]]));
      assert slots[i..] == [slots[|path| - 1]];
    }
  }
}
