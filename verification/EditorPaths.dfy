/** The structured editor's path engine (config-ui/src/config_editor.rs):
    `get_at_path`, `set_at_path`, `remove_at_path`, `cleanup_empty_parents` and
    `revert_field_to_saved`, on raw string segments, and their slot-path reading
    on documents the path fits. */
module EditorPaths {
  import opened Prelude
  import opened Documents
  import opened ModalPaths

  type Path = seq<string>

  function GetAtPath(doc: Json, path: Path): Option<Json> {
    Get(Some(doc), SlotsOf(path))
  }

  /** `set_at_path`; None is the panic on an empty path or on the `unwrap` of a
      non-object. A numeric segment on a non-array falls back to being a key. */
  function SetAtPath(doc: Json, path: Path, value: Json): Option<Json>
    decreases |path|
  {
    if path == [] then
      None
    else if |path| == 1 then
      Some(AssignLast(doc, path[0], value))
    else
      var index := ParseU64(path[0]);
      if index.Some? && doc.Arr? then
        var items := PadTo(doc.items, index.value + 1, EMPTY_OBJECT);
        var inner := SetAtPath(items[index.value], path[1..], value);
        if inner.None? then None else Some(Arr(items[index.value := inner.value]))
      else if doc.Obj? then
        var child := if path[0] in doc.fields then doc.fields[path[0]] else EMPTY_OBJECT;
        var inner := SetAtPath(child, path[1..], value);
        if inner.None? then None else Some(Obj(doc.fields[path[0] := inner.value]))
      else
        None
  }

  function AssignLast(doc: Json, segment: string, value: Json): Json {
    var index := ParseU64(segment);
    if index.Some? then
      if doc.Arr?
      then Arr(PadTo(doc.items, index.value + 1, Null)[index.value := value])
      else doc
    else if doc.Obj? then Obj(doc.fields[segment := value])
    else doc
  }

  /** The child `remove_at_path` steps into: an element, or a key that may look numeric. */
  function RemovalStep(doc: Json, segment: string): Option<Json> {
    var index := ParseU64(segment);
    if index.Some? && doc.Arr? then Child(Some(doc), Index(index.value))
    else Child(Some(doc), Key(segment))
  }

  /** `remove_at_path`; None is the panic on an empty path. */
  function RemoveAtPath(doc: Json, path: Path): (removed: Option<Json>)
    ensures removed.None? <==> path == []
    decreases |path|
  {
    if path == [] then
      None
    else if |path| == 1 then
      Some(if doc.Obj? then Obj(doc.fields - {path[0]}) else doc)
    else
      var next := RemovalStep(doc, path[0]);
      if next.None? then
        Some(doc)
      else
        var inner := RemoveAtPath(next.value, path[1..]).value;
        Some(if doc.Arr?
             then Arr(doc.items[ParseU64(path[0]).value := inner])
             else Obj(doc.fields[path[0] := inner]))
  }

  /** The loop of `cleanup_empty_parents`, starting from a given prefix. */
  function CleanupFrom(doc: Json, baseline: Json, prefix: Path): Json
    decreases |prefix|
  {
    if prefix == [] then
      doc
    else if GetAtPath(doc, prefix) == Some(EMPTY_OBJECT) && GetAtPath(baseline, prefix).None? then
      CleanupFrom(RemoveAtPath(doc, prefix).value, baseline, prefix[..|prefix| - 1])
    else
      doc
  }

  function CleanupEmptyParents(doc: Json, baseline: Json, path: Path): Json {
    if path == [] then doc else CleanupFrom(doc, baseline, path[..|path| - 1])
  }

  /** The handlers for a field typed empty: remove, then clean up. */
  function ClearField(doc: Json, baseline: Json, path: Path): Option<Json> {
    var removed := RemoveAtPath(doc, path);
    if removed.None? then None else Some(CleanupEmptyParents(removed.value, baseline, path))
  }

  function RevertField(doc: Json, baseline: Json, path: Path): Option<Json> {
    if path == [] then
      Some(doc)
    else
      var saved := GetAtPath(baseline, path);
      if saved.Some? then SetAtPath(doc, path, saved.value) else ClearField(doc, baseline, path)
  }

  // ---- the slot-path reading ----------------------------------------------

  /** A field path: at least one segment, and the last one is a key. */
  predicate EndsInKey(slots: seq<Slot>) {
    slots != [] && slots[|slots| - 1].Key?
  }

  /** The document the editor and the picker start from when there is none yet. */
  function OrEmpty(doc: Option<Json>): Json {
    if doc.Some? then doc.value else EMPTY_OBJECT
  }

  /** One step of a fitting path: an object or nothing at a key, an element at an index. */
  predicate FitsStep(doc: Option<Json>, slot: Slot) {
    if slot.Key? then doc.None? || doc.value.Obj? else Child(doc, slot).Some?
  }

  lemma SetStep(doc: Option<Json>, path: Path, value: Json, inner: Json)
    requires |path| > 1 && FitsStep(doc, SlotOf(path[0]))
    requires SetAtPath(OrEmpty(Child(doc, SlotOf(path[0]))), path[1..], value) == Some(inner)
    ensures SetAtPath(OrEmpty(doc), path, value) == Some(WithSlot(OrNull(doc), SlotOf(path[0]), inner))
  {
    if SlotOf(path[0]).Index? {
      var items, i := doc.value.items, SlotOf(path[0]).at;
      assert PadTo(items, i + 1, EMPTY_OBJECT) == items == PadTo(items, i + 1, Null);
    }
  }

  /** Where the path fits, the editor's setter never panics and is the modal's setter. */
  lemma {:induction false} SetAgrees(doc: Option<Json>, path: Path, value: Json)
    requires EndsInKey(SlotsOf(path)) && Fits(doc, SlotsOf(path))
    ensures SetAtPath(OrEmpty(doc), path, value) == Some(Put(OrNull(doc), SlotsOf(path), value))
    decreases |path|
  {
    var slots := SlotsOf(path);
    if |path| > 1 {
      assert SlotsOf(path[1..]) == slots[1..];
      var child := Child(doc, slots[0]);
      SetAgrees(child, path[1..], value);
      SetStep(doc, path, value, Put(OrNull(child), slots[1..], value));
    }
  }

  lemma {:induction false} RemoveAgrees(doc: Json, path: Path)
    requires EndsInKey(SlotsOf(path)) && Fits(Some(doc), SlotsOf(path))
    ensures RemoveAtPath(doc, path) == Some(Delete(doc, SlotsOf(path)))
    decreases |path|
  {
    var slots := SlotsOf(path);
    if |path| > 1 {
      assert SlotsOf(path[1..]) == slots[1..];
      var child := Child(Some(doc), slots[0]);
      if child.Some? {
        RemoveAgrees(child.value, path[1..]);
      }
    }
  }

  lemma {:induction false} FitsPrefix(doc: Option<Json>, p: seq<Slot>, n: nat)
    requires Fits(doc, p) && n <= |p|
    ensures Fits(doc, p[..n])
    decreases |p|
  {
    if n > 0 {
      assert p[..n][1..] == p[1..][..n - 1];
      FitsPrefix(Child(doc, p[0]), p[1..], n - 1);
    }
  }

  /** A fitting path that ends in an index names an element that is there. */
  lemma {:induction false} FitsLastIndex(doc: Option<Json>, p: seq<Slot>)
    requires Fits(doc, p) && p != [] && p[|p| - 1].Index?
    ensures Get(doc, p).Some?
    decreases |p|
  {
    if |p| > 1 {
      FitsLastIndex(Child(doc, p[0]), p[1..]);
    }
  }

  lemma {:induction false} DeleteFits(doc: Json, p: seq<Slot>)
    requires EndsInKey(p) && Fits(Some(doc), p)
    ensures Fits(Some(Delete(doc, p)), p)
    decreases |p|
  {
    if |p| > 1 {
      var child := Child(Some(doc), p[0]);
      if child.Some? {
        DeleteFits(child.value, p[1..]);
      }
    }
  }

  /** The cleanup loop on slot paths; the flag tells whether it pruned its way to the root. */
  function CleanupSlots(doc: Json, baseline: Option<Json>, prefix: seq<Slot>): (Json, bool)
    decreases |prefix|
  {
    if prefix == [] then
      (doc, true)
    else if Get(Some(doc), prefix) == Some(EMPTY_OBJECT) && Get(baseline, prefix).None? then
      CleanupSlots(Delete(doc, prefix), baseline, prefix[..|prefix| - 1])
    else
      (doc, false)
  }

  lemma {:induction false} CleanupAgrees(doc: Json, baseline: Json, prefix: Path)
    requires Fits(Some(doc), SlotsOf(prefix)) && Fits(Some(baseline), SlotsOf(prefix))
    ensures CleanupFrom(doc, baseline, prefix) == CleanupSlots(doc, Some(baseline), SlotsOf(prefix)).0
    decreases |prefix|
  {
    var slots := SlotsOf(prefix);
    if prefix != [] && Get(Some(doc), slots) == Some(EMPTY_OBJECT) && Get(Some(baseline), slots).None? {
      if slots[|slots| - 1].Index? {
        FitsLastIndex(Some(baseline), slots);
        assert false;
      } else {
        var n := |slots| - 1;
        RemoveAgrees(doc, prefix);
        DeleteFits(doc, slots);
        FitsPrefix(Some(Delete(doc, slots)), slots, n);
        FitsPrefix(Some(baseline), slots, n);
        assert SlotsOf(prefix[..n]) == slots[..n];
        CleanupAgrees(Delete(doc, slots), baseline, prefix[..n]);
      }
    }
  }

  /** Replace an existing child. */
  function WithChild(doc: Json, slot: Slot, value: Json): Json
    requires Child(Some(doc), slot).Some?
  {
    match doc
    case Arr(items) => Arr(items[slot.at := value])
    case Obj(fields) => Obj(fields[slot.name := value])
  }

  /** Remove-and-clean-up from the top down: prune a child on the way back when it
      ended up empty and the baseline never had it. */
  function ClearSlots(doc: Json, baseline: Option<Json>, path: seq<Slot>): (Json, bool)
    requires path != []
    decreases |path|
  {
    if |path| == 1 then
      (Delete(doc, path), true)
    else
      var child := Child(Some(doc), path[0]);
      var saved := Child(baseline, path[0]);
      if child.None? then
        (doc, false)
      else
        var (inner, pruned) := ClearSlots(child.value, saved, path[1..]);
        if pruned && inner == EMPTY_OBJECT && saved.None?
        then (Delete(doc, [path[0]]), true)
        else (WithChild(doc, path[0], inner), false)
  }

  lemma DeleteUnder(doc: Json, slot: Slot, child: Json, rest: seq<Slot>)
    requires Child(Some(doc), slot).Some? && rest != []
    ensures Delete(WithChild(doc, slot, child), [slot] + rest) == WithChild(doc, slot, Delete(child, rest))
  {
    assert ([slot] + rest)[1..] == rest;
    var less := Delete(child, rest);
    match doc
    case Arr(items) => assert items[slot.at := child][slot.at := less] == items[slot.at := less];
    case Obj(fields) => assert fields[slot.name := child][slot.name := less] == fields[slot.name := less];
  }

  /** The bottom-up loop under one more leading segment. */
  lemma {:induction false} CleanupUnder(doc: Json, baseline: Option<Json>, slot: Slot, child: Json, rest: seq<Slot>)
    requires Child(Some(doc), slot).Some?
    ensures var (inner, pruned) := CleanupSlots(child, Child(baseline, slot), rest);
            CleanupSlots(WithChild(doc, slot, child), baseline, [slot] + rest) ==
            if pruned then CleanupSlots(WithChild(doc, slot, inner), baseline, [slot])
            else (WithChild(doc, slot, inner), false)
    decreases |rest|
  {
    var path := [slot] + rest;
    if rest == [] {
      assert path == [slot];
    } else {
      var n := |rest| - 1;
      assert path[1..] == rest;
      assert path[..|path| - 1] == [slot] + rest[..n];
      assert Child(Some(WithChild(doc, slot, child)), slot) == Some(child);
      if Get(Some(child), rest) == Some(EMPTY_OBJECT) && Get(Child(baseline, slot), rest).None? {
        DeleteUnder(doc, slot, child, rest);
        CleanupUnder(doc, baseline, slot, Delete(child, rest), rest[..n]);
      }
    }
  }

  /** Removing a field and running the bottom-up cleanup loop is the top-down function. */
  lemma {:induction false} CleanupIsTopDown(doc: Json, baseline: Option<Json>, path: seq<Slot>)
    requires EndsInKey(path) && Fits(Some(doc), path) && Fits(baseline, path)
    ensures CleanupSlots(Delete(doc, path), baseline, path[..|path| - 1]) == ClearSlots(doc, baseline, path)
    decreases |path|
  {
    if |path| > 1 {
      var child := Child(Some(doc), path[0]);
      if child.None? {
        GetMissing(path[..|path| - 1][1..]);
      } else {
        CleanupIsTopDown(child.value, Child(baseline, path[0]), path[1..]);
        assert path == [path[0]] + path[1..];
        assert path[..|path| - 1] == [path[0]] + path[1..][..|path| - 2];
        CleanupBelow(doc, baseline, path[0], child.value, path[1..]);
      }
    }
  }

  lemma CleanupBelow(doc: Json, baseline: Option<Json>, slot: Slot, child: Json, rest: seq<Slot>)
    requires rest != [] && Child(Some(doc), slot) == Some(child)
    requires slot.Key? || Child(baseline, slot).Some?
    requires CleanupSlots(Delete(child, rest), Child(baseline, slot), rest[..|rest| - 1])
          == ClearSlots(child, Child(baseline, slot), rest)
    ensures CleanupSlots(Delete(doc, [slot] + rest), baseline, [slot] + rest[..|rest| - 1])
         == ClearSlots(doc, baseline, [slot] + rest)
  {
    assert ([slot] + rest)[1..] == rest;
    assert WithChild(doc, slot, child) == doc;
    DeleteUnder(doc, slot, child, rest);
    CleanupUnder(doc, baseline, slot, Delete(child, rest), rest[..|rest| - 1]);
    CleanupOne(doc, baseline, slot, ClearSlots(child, Child(baseline, slot), rest).0);
  }

  /** One round of the loop, at a child that has just become `inner`. */
  lemma CleanupOne(doc: Json, baseline: Option<Json>, slot: Slot, inner: Json)
    requires Child(Some(doc), slot).Some? && (slot.Key? || Child(baseline, slot).Some?)
    ensures CleanupSlots(WithChild(doc, slot, inner), baseline, [slot]) ==
            if inner == EMPTY_OBJECT && Child(baseline, slot).None?
            then (Delete(doc, [slot]), true)
            else (WithChild(doc, slot, inner), false)
  {
    var after := WithChild(doc, slot, inner);
    assert Get(Some(after), [slot]) == Some(inner);
    assert Get(baseline, [slot]) == Child(baseline, slot);
    if slot.Key? {
      assert after.fields - {slot.name} == doc.fields - {slot.name};
    }
    assert [slot][..0] == [];
  }

  // ---- the in-place code -------------------------------------------------

  /** The outcome of the whole walk, given the outcome at the cursor. */
  function PlugAll(trail: seq<Frame>, inner: Option<Json>): Option<Json> {
    if inner.None? then None else Some(Plug(trail, inner.value))
  }

  /** The signal holding the form document. */
  class Form {
    var doc: Json

    constructor (initial: Json)
      ensures doc == initial
    {
      doc := initial;
    }

    /** `set_at_path`: walk a mutable cursor down, creating containers, and assign. */
    method Set(path: Path, value: Json) returns (panicked: bool)
      modifies this
      ensures panicked <==> SetAtPath(old(doc), path, value).None?
      ensures !panicked ==> Some(doc) == SetAtPath(old(doc), path, value)
    {
      if path == [] {
        return true;
      }
      var cur, trail := doc, [];
      var i := 0;
      while i < |path| - 1
        invariant 0 <= i < |path|
        invariant doc == old(doc)
        invariant SetAtPath(doc, path, value) == PlugAll(trail, SetAtPath(cur, path[i..], value))
      {
        var segment := path[i];
        assert path[i..][0] == segment && path[i..][1..] == path[i + 1..];
        var index := ParseU64(segment);
        if index.Some? && cur.Arr? {
          var items := PadTo(cur.items, index.value + 1, EMPTY_OBJECT);
          var inner := SetAtPath(items[index.value], path[i + 1..], value);
          if inner.Some? {
            PlugStep(trail, InArr(items, index.value), inner.value);
          }
          trail := trail + [InArr(items, index.value)];
          cur := items[index.value];
        } else if cur.Obj? {
          var child := if segment in cur.fields then cur.fields[segment] else EMPTY_OBJECT;
          var inner := SetAtPath(child, path[i + 1..], value);
          if inner.Some? {
            PlugStep(trail, InObj(cur.fields, segment), inner.value);
          }
          trail := trail + [InObj(cur.fields, segment)];
          cur := child;
        } else {
          return true;
        }
        i := i + 1;
      }
      assert path[i..] == [path[|path| - 1]];
      doc := Plug(trail, AssignLast(cur, path[|path| - 1], value));
      return false;
    }

    /** `remove_at_path`: walk down, give up at the first missing step. */
    method Remove(path: Path) returns (panicked: bool)
      modifies this
      ensures panicked <==> path == []
      ensures !panicked ==> Some(doc) == RemoveAtPath(old(doc), path)
    {
      if path == [] {
        return true;
      }
      var cur, trail := doc, [];
      var i := 0;
      while i < |path| - 1
        invariant 0 <= i < |path|
        invariant doc == old(doc) == Plug(trail, cur)
        invariant RemoveAtPath(doc, path).value == Plug(trail, RemoveAtPath(cur, path[i..]).value)
      {
        var segment := path[i];
        assert path[i..][0] == segment && path[i..][1..] == path[i + 1..];
        var next := RemovalStep(cur, segment);
        if next.None? {
          return false;
        }
        var frame := if cur.Arr? then InArr(cur.items, ParseU64(segment).value) else InObj(cur.fields, segment);
        assert Fill(frame, next.value) == cur;
        PlugStep(trail, frame, next.value);
        PlugStep(trail, frame, RemoveAtPath(next.value, path[i + 1..]).value);
        trail := trail + [frame];
        cur := next.value;
        i := i + 1;
      }
      var last := path[|path| - 1];
      assert path[i..] == [last];
      doc := Plug(trail, if cur.Obj? then Obj(cur.fields - {last}) else cur);
      return false;
    }

    /** `cleanup_empty_parents`: pop segments while the parent is an empty object
        that the saved document lacks. */
    method Cleanup(baseline: Json, path: Path)
      modifies this
      ensures doc == CleanupEmptyParents(old(doc), baseline, path)
    {
      var prefix := if path == [] then [] else path[..|path| - 1];
      while prefix != []
        invariant CleanupFrom(doc, baseline, prefix) == CleanupEmptyParents(old(doc), baseline, path)
        decreases |prefix|
      {
        var curEmptyObject := GetAtPath(doc, prefix) == Some(EMPTY_OBJECT);
        var baselineAbsent := GetAtPath(baseline, prefix).None?;
        if curEmptyObject && baselineAbsent {
          var panicked := Remove(prefix);
          prefix := prefix[..|prefix| - 1];
        } else {
          break;
        }
      }
    }

    /** `revert_field_to_saved`. */
    method RevertToSaved(baseline: Json, path: Path) returns (panicked: bool)
      modifies this
      ensures panicked <==> RevertField(old(doc), baseline, path).None?
      ensures !panicked ==> Some(doc) == RevertField(old(doc), baseline, path)
    {
      if path == [] {
        return false;
      }
      var saved := GetAtPath(baseline, path);
      match saved
      case Some(v) =>
        panicked := Set(path, v);
      case None =>
        panicked := Remove(path);
        Cleanup(baseline, path);
    }
  }
}
