/** The model picker's own path setter (config-ui/src/model_select_modal.rs) and
    the agreement of all three setters in config-ui. */
module Setters {
  import opened Prelude
  import opened Documents
  import opened ModalPaths
  import opened EditorPaths

  /** `set_at_path` of the model picker: it gives up, keeping what it created so
      far, at a container of the wrong kind; the last segment is always a key. */
  function PickerSet(doc: Json, path: Path, value: Json): Json
    decreases |path|
  {
    if path == [] then
      doc
    else if |path| == 1 then
      if doc.Obj? then Obj(doc.fields[path[0] := value]) else doc
    else
      var index := ParseU64(path[0]);
      if index.Some? then
        if doc.Arr? then
          var items := PadTo(doc.items, index.value + 1, EMPTY_OBJECT);
          Arr(items[index.value := PickerSet(items[index.value], path[1..], value)])
        else
          doc
      else if doc.Obj? then
        var child := if path[0] in doc.fields then doc.fields[path[0]] else EMPTY_OBJECT;
        Obj(doc.fields[path[0] := PickerSet(child, path[1..], value)])
      else
        doc
  }

  /** The container the cursor goes through, grown if need be; None where the picker gives up. */
  function PickerFrame(cur: Json, segment: string): Option<Frame> {
    var index := ParseU64(segment);
    if index.Some? then
      if cur.Arr? then Some(InArr(PadTo(cur.items, index.value + 1, EMPTY_OBJECT), index.value)) else None
    else if cur.Obj? then Some(InObj(cur.fields, segment))
    else None
  }

  /** What the cursor finds in that container. */
  function PickerNext(cur: Json, segment: string): Json
    requires PickerFrame(cur, segment).Some?
  {
    match PickerFrame(cur, segment).value
    case InArr(items, at) => items[at]
    case InObj(fields, key) => if key in fields then fields[key] else EMPTY_OBJECT
  }

  lemma PickerMoves(cur: Json, path: Path, value: Json)
    requires |path| > 1
    ensures var frame := PickerFrame(cur, path[0]);
            PickerSet(cur, path, value) ==
            if frame.None? then cur else Fill(frame.value, PickerSet(PickerNext(cur, path[0]), path[1..], value))
  {
  }

  /** The in-place walk of the model picker. */
  class PickerForm {
    var doc: Json

    constructor (initial: Json)
      ensures doc == initial
    {
      doc := initial;
    }

    method Set(path: Path, value: Json)
      modifies this
      ensures doc == PickerSet(old(doc), path, value)
    {
      if path == [] {
        return;
      }
      var cur, trail := doc, [];
      var i := 0;
      while i < |path| - 1
        invariant 0 <= i < |path|
        invariant doc == old(doc)
        invariant PickerSet(doc, path, value) == Plug(trail, PickerSet(cur, path[i..], value))
      {
        assert path[i..][0] == path[i] && path[i..][1..] == path[i + 1..];
        PickerMoves(cur, path[i..], value);
        var frame := PickerFrame(cur, path[i]);
        if frame.None? {
          doc := Plug(trail, cur);
          return;
        }
        var next := PickerNext(cur, path[i]);
        PlugStep(trail, frame.value, PickerSet(next, path[i + 1..], value));
        trail := trail + [frame.value];
        cur := next;
        i := i + 1;
      }
      assert path[i..] == [path[|path| - 1]];
      doc := Plug(trail, if cur.Obj? then Obj(cur.fields[path[|path| - 1] := value]) else cur);
    }
  }

  lemma PickerStep(doc: Option<Json>, path: Path, value: Json)
    requires |path| > 1 && FitsStep(doc, SlotOf(path[0]))
    ensures var slot := SlotOf(path[0]);
            PickerSet(OrEmpty(doc), path, value)
            == WithSlot(OrNull(doc), slot, PickerSet(OrEmpty(Child(doc, slot)), path[1..], value))
  {
    if SlotOf(path[0]).Index? {
      var items, i := doc.value.items, SlotOf(path[0]).at;
      assert PadTo(items, i + 1, EMPTY_OBJECT) == items == PadTo(items, i + 1, Null);
    }
  }

  /** Where the path fits, the picker's setter is the modal's. */
  lemma {:induction false} PickerAgrees(doc: Option<Json>, path: Path, value: Json)
    requires EndsInKey(SlotsOf(path)) && Fits(doc, SlotsOf(path))
    ensures PickerSet(OrEmpty(doc), path, value) == Put(OrNull(doc), SlotsOf(path), value)
    decreases |path|
  {
    var slots := SlotsOf(path);
    if |path| > 1 {
      assert SlotsOf(path[1..]) == slots[1..];
      PickerAgrees(Child(doc, slots[0]), path[1..], value);
      PickerStep(doc, path, value);
    }
  }

  /** On a path that ends in a key and fits the document, the editor's, the modal's
      and the picker's setter write the same document, and reading back gives the value. */
  lemma ThreeSettersAgree(doc: Json, path: Path, value: Json)
    requires EndsInKey(SlotsOf(path)) && Fits(Some(doc), SlotsOf(path))
    ensures SetAtPath(doc, path, value) == Some(PickerSet(doc, path, value))
    ensures PickerSet(doc, path, value) == Put(doc, SlotsOf(path), value)
    ensures GetAtPath(PickerSet(doc, path, value), path) == Some(value)
  {
    SetAgrees(Some(doc), path, value);
    PickerAgrees(Some(doc), path, value);
    PutGet(doc, SlotsOf(path), value);
  }

  // ---- where the path does not fit ----------------------------------------------------

  /** The picker gets to its last segment: arrays at indices, of whatever length, objects or
      nothing yet at keys, and an object or nothing yet at the end. */
  predicate GoesThrough(doc: Option<Json>, path: Path)
    requires path != []
    decreases |path|
  {
    if |path| == 1 then doc.None? || doc.value.Obj?
    else
      (if SlotOf(path[0]).Index? then doc.Some? && doc.value.Arr? else doc.None? || doc.value.Obj?)
      && GoesThrough(Child(doc, SlotOf(path[0])), path[1..])
  }

  lemma PickerPasses(doc: Option<Json>, path: Path, value: Json)
    requires |path| > 1
    requires if SlotOf(path[0]).Index? then doc.Some? && doc.value.Arr? else doc.None? || doc.value.Obj?
    ensures Child(Some(PickerSet(OrEmpty(doc), path, value)), SlotOf(path[0]))
         == Some(PickerSet(OrEmpty(Child(doc, SlotOf(path[0]))), path[1..], value))
  {
    if SlotOf(path[0]).Index? {
      var items, i := doc.value.items, SlotOf(path[0]).at;
      assert PadTo(items, i + 1, EMPTY_OBJECT)[i] == OrEmpty(Child(doc, Index(i)));
    }
  }

  /** Where it gets through, the value is in the object at the rest of the path, under the
      last segment as a key, numeric or not. */
  lemma {:induction false} PickerWrites(doc: Option<Json>, path: Path, value: Json)
    requires path != [] && GoesThrough(doc, path)
    ensures var parent := Get(Some(PickerSet(OrEmpty(doc), path, value)), SlotsOf(path[..|path| - 1]));
            && parent.Some? && parent.value.Obj? && path[|path| - 1] in parent.value.fields
            && parent.value.fields[path[|path| - 1]] == value
    decreases |path|
  {
    if |path| == 1 {
      assert SlotsOf(path[..0]) == [];
    } else {
      var slots, n := SlotsOf(path[..|path| - 1]), |path| - 1;
      assert slots[1..] == SlotsOf(path[1..][..n - 1]) && slots[0] == SlotOf(path[0]);
      PickerPasses(doc, path, value);
      PickerWrites(Child(doc, slots[0]), path[1..], value);
    }
  }

  /** Where it does not, the value does not matter. */
  lemma {:induction false} PickerGivesUp(doc: Option<Json>, path: Path, one: Json, other: Json)
    requires path != [] && !GoesThrough(doc, path)
    ensures PickerSet(OrEmpty(doc), path, one) == PickerSet(OrEmpty(doc), path, other)
    decreases |path|
  {
    if |path| > 1 {
      var slot := SlotOf(path[0]);
      var child := Child(doc, slot);
      if slot.Index? && doc.Some? && doc.value.Arr? {
        PickerGivesUp(child, path[1..], one, other);
        assert PadTo(doc.value.items, slot.at + 1, EMPTY_OBJECT)[slot.at] == OrEmpty(child);
      } else if slot.Key? && (doc.None? || doc.value.Obj?) {
        PickerGivesUp(child, path[1..], one, other);
      }
    }
  }

  /** And either way every value at a diverging path that was there stays. */
  lemma {:induction false} PickerKeepsOthers(doc: Json, path: Path, q: seq<Slot>, value: Json)
    requires Diverge(SlotsOf(path), q) && forall i :: 0 <= i < |q| && q[i].Key? ==> ParseU64(q[i].name).None?
    requires Get(Some(doc), q).Some?
    ensures Get(Some(PickerSet(doc, path, value)), q) == Get(Some(doc), q)
    decreases |path|
  {
    var p, after := SlotsOf(path), PickerSet(doc, path, value);
    if Child(Some(doc), q[0]).None? {
      GetMissing(q[1..]);
      assert false;
    } else if p[0] != q[0] {
      PickerElsewhere(doc, path, q[0], value);
    } else {
      assert p[1..] == SlotsOf(path[1..]);
      PickerPasses(Some(doc), path, value);
      PickerKeepsOthers(Child(Some(doc), q[0]).value, path[1..], q[1..], value);
    }
  }

  lemma PickerElsewhere(doc: Json, path: Path, slot: Slot, value: Json)
    requires path != [] && Child(Some(doc), slot).Some? && slot != SlotOf(path[0])
    requires slot.Key? ==> ParseU64(slot.name).None?
    ensures Child(Some(PickerSet(doc, path, value)), slot) == Child(Some(doc), slot)
  {
  }
}
