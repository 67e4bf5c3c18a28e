/** Where the editor's promise ends. Type-then-clear gives back the saved document on
    exactly the paths `Undoable` describes; the inputs that clear without pruning leave
    exactly the orphan parents behind. */
module EditorLimits {
  import opened Prelude
  import opened Documents
  import opened ModalPaths
  import opened EditorPaths
  import opened EditorRuns

  /** The length of the array at the first `n` segments of a path, if there is one. */
  function LengthAt(doc: Option<Json>, path: Path, n: nat): Option<nat>
    requires n <= |path|
  {
    var v := Get(doc, SlotsOf(path[..n]));
    if v.Some? && v.value.Arr? then Some(|v.value.items|) else None
  }

  lemma LengthBelow(doc: Option<Json>, path: Path, n: nat)
    requires 0 < n <= |path|
    ensures LengthAt(doc, path, n) == LengthAt(Child(doc, SlotOf(path[0])), path[1..], n - 1)
  {
    assert SlotsOf(path[..n])[1..] == SlotsOf(path[1..][..n - 1]);
  }

  lemma {:induction false} RemoveKeepsLength(doc: Json, path: Path, n: nat)
    requires n < |path| && LengthAt(Some(doc), path, n).Some?
    ensures LengthAt(RemoveAtPath(doc, path), path, n) == LengthAt(Some(doc), path, n)
    decreases |path|
  {
    if n == 0 {
      assert SlotsOf(path[..0]) == [];
    } else {
      LengthBelow(Some(doc), path, n);
      LengthBelow(RemoveAtPath(doc, path), path, n);
      var child := Child(Some(doc), SlotOf(path[0]));
      if child.None? {
        GetMissing(SlotsOf(path[1..][..n - 1]));
        assert false;
      } else {
        RemoveKeepsLength(child.value, path[1..], n - 1);
      }
    }
  }

  lemma {:induction false} CleanupKeepsLength(doc: Json, baseline: Json, path: Path, m: nat, n: nat)
    requires n <= m <= |path| && LengthAt(Some(doc), path, n).Some?
    ensures LengthAt(Some(CleanupFrom(doc, baseline, path[..m])), path, n) == LengthAt(Some(doc), path, n)
    decreases m
  {
    var prefix := path[..m];
    assert path[..m][..n] == path[..n];
    if prefix != [] && GetAtPath(doc, prefix) == Some(EMPTY_OBJECT) && GetAtPath(baseline, prefix).None? {
      RemoveKeepsLength(doc, prefix, n);
      assert prefix[..m - 1] == path[..m - 1];
      CleanupKeepsLength(RemoveAtPath(doc, prefix).value, baseline, path, m - 1, n);
    }
  }

  lemma {:induction false} SetGrows(doc: Json, path: Path, value: Json, n: nat)
    requires n < |path| && ParseU64(path[n]).Some? && LengthAt(Some(doc), path, n).Some?
    ensures var after := SetAtPath(doc, path, value);
            after.Some? ==> LengthAt(after, path, n).Some? && LengthAt(after, path, n).value > ParseU64(path[n]).value
    decreases |path|
  {
    if n == 0 {
      assert SlotsOf(path[..0]) == [];
    } else if SetAtPath(doc, path, value).Some? {
      LengthBelow(Some(doc), path, n);
      LengthBelow(SetAtPath(doc, path, value), path, n);
      var child := Child(Some(doc), SlotOf(path[0]));
      if child.None? {
        GetMissing(SlotsOf(path[1..][..n - 1]));
        assert false;
      } else {
        SetGrows(child.value, path[1..], value, n - 1);
      }
    }
  }

  /** An index segment must name a saved element. Where it lies beyond a saved array,
      typing into the field creates the element and emptying the field again never
      removes it: the editor stays dirty. */
  lemma CreatedElementSurvives(baseline: Json, path: Path, value: Json, n: nat)
    requires n < |path| && ParseU64(path[n]).Some? && LengthAt(Some(baseline), path, n).Some?
    requires LengthAt(Some(baseline), path, n).value <= ParseU64(path[n]).value
    requires SetAtPath(baseline, path, value).Some?
    ensures ClearField(SetAtPath(baseline, path, value).value, baseline, path) != Some(baseline)
  {
    var typed := SetAtPath(baseline, path, value).value;
    SetGrows(baseline, path, value, n);
    RemoveKeepsLength(typed, path, n);
    CleanupKeepsLength(RemoveAtPath(typed, path).value, baseline, path, |path| - 1, n);
  }

  // ---- exactly which fields type-then-clear restores ------------------------------

  /** The walk of `remove_at_path`: unlike `get_at_path` it takes a numeric segment on
      an object for a key. */
  function Walk(doc: Json, path: Path): Option<Json>
    decreases |path|
  {
    if path == [] then
      Some(doc)
    else
      var next := RemovalStep(doc, path[0]);
      if next.None? then None else Walk(next.value, path[1..])
  }

  /** The field's parent is saved, or the path to it fits the saved document: it leaves
      that at a missing object key, with no index past the end of an array, on an object
      or below the missing key. */
  predicate Undoable(saved: Json, path: Path)
    requires path != []
  {
    var parent := path[..|path| - 1];
    Walk(saved, parent).Some? || Fits(Some(saved), SlotsOf(parent))
  }

  /** Typing a value and removing it again, without the cleanup. */
  function TypedAndRemoved(doc: Json, path: Path, value: Json): Option<Json> {
    var typed := SetAtPath(doc, path, value);
    if typed.None? then None else RemoveAtPath(typed.value, path)
  }

  /** One step into an array: the element the walk goes through becomes `inner`. */
  lemma StepIntoArray(items: seq<Json>, path: Path, value: Json, i: nat, child: Json, inner: Json)
    requires |path| > 1 && ParseU64(path[0]) == Some(i)
    requires child == if i < |items| then items[i] else EMPTY_OBJECT
    requires TypedAndRemoved(child, path[1..], value) == Some(inner)
    ensures TypedAndRemoved(Arr(items), path, value) == Some(Arr(PadTo(items, i + 1, EMPTY_OBJECT)[i := inner]))
    ensures TypedAndRemoved(Arr(items), path, value) == Some(Arr(items)) <==> i < |items| && inner == child
  {
    var typedBelow := SetAtPath(child, path[1..], value).value;
    var padded := PadTo(items, i + 1, EMPTY_OBJECT);
    assert padded[i] == child;
    var typed := padded[i := typedBelow];
    assert SetAtPath(Arr(items), path, value) == Some(Arr(typed));
    assert typed[i := inner] == padded[i := inner];
    assert RemovalStep(Arr(typed), path[0]) == Some(typedBelow);
    if i < |items| && inner == child {
      assert padded[i := inner] == items;
    } else {
      assert padded[i := inner][i] == inner;
    }
  }

  lemma StepIntoObject(fields: map<string, Json>, path: Path, value: Json, child: Json, inner: Json)
    requires |path| > 1 && child == if path[0] in fields then fields[path[0]] else EMPTY_OBJECT
    requires TypedAndRemoved(child, path[1..], value) == Some(inner)
    ensures TypedAndRemoved(Obj(fields), path, value) == Some(Obj(fields[path[0] := inner]))
    ensures TypedAndRemoved(Obj(fields), path, value) == Some(Obj(fields)) <==> path[0] in fields && inner == child
  {
    var k := path[0];
    var typedBelow := SetAtPath(child, path[1..], value).value;
    assert SetAtPath(Obj(fields), path, value) == Some(Obj(fields[k := typedBelow]));
    assert RemovalStep(Obj(fields[k := typedBelow]), k) == Some(typedBelow);
    assert fields[k := typedBelow][k := inner] == fields[k := inner];
    if k in fields && inner == child {
      assert fields[k := inner] == fields;
    } else {
      assert fields[k := inner][k] == inner;
    }
  }

  lemma TypeAndRemoveStep(doc: Json, path: Path, value: Json)
    requires |path| > 1 && SetAtPath(doc, path, value).Some?
    ensures var child := RemovalStep(doc, path[0]);
            var inner := TypedAndRemoved(OrEmpty(child), path[1..], value);
            var outer := TypedAndRemoved(doc, path, value);
            && SetAtPath(OrEmpty(child), path[1..], value).Some? && outer.Some? && inner.Some?
            && (if doc.Arr? then outer.value.Arr? && ParseU64(path[0]).Some? else outer.value.Obj? && doc.Obj?)
            && RemovalStep(outer.value, path[0]) == inner
            && (outer == Some(doc) <==> child == inner)
  {
    var child := OrEmpty(RemovalStep(doc, path[0]));
    if doc.Arr? {
      var i := ParseU64(path[0]).value;
      assert PadTo(doc.items, i + 1, EMPTY_OBJECT)[i] == child;
      StepIntoArray(doc.items, path, value, i, child, TypedAndRemoved(child, path[1..], value).value);
    } else {
      StepIntoObject(doc.fields, path, value, child, TypedAndRemoved(child, path[1..], value).value);
    }
  }

  lemma OneKeyTypedAndRemoved(doc: Json, path: Path, value: Json)
    requires |path| == 1 && ParseU64(path[0]).None?
    ensures TypedAndRemoved(doc, path, value) == Some(doc) <==> Walk(doc, path).None?
  {
    var k := path[0];
    assert Walk(doc, path) == Child(Some(doc), Key(k));
    if doc.Obj? {
      var after := doc.fields[k := value] - {k};
      assert TypedAndRemoved(doc, path, value) == Some(Obj(after)) && k !in after;
      if k !in doc.fields {
        assert after == doc.fields;
      }
    }
  }

  /** The secret and key-hash inputs remove without cleaning up. Typing into such a
      field and emptying it again restores the saved document exactly when that lacks
      the field but has its parent. */
  lemma {:induction false} TypeThenEmptyWithoutCleanup(doc: Json, path: Path, value: Json)
    requires EndsInKey(SlotsOf(path)) && SetAtPath(doc, path, value).Some?
    ensures TypedAndRemoved(doc, path, value) == Some(doc) <==>
            Walk(doc, path).None? && Walk(doc, path[..|path| - 1]).Some?
    decreases |path|
  {
    var n := |path| - 1;
    assert SlotsOf(path)[n] == Key(path[n]);
    if n == 0 {
      assert path[..0] == [];
      OneKeyTypedAndRemoved(doc, path, value);
    } else {
      assert path[..n][1..] == path[1..][..n - 1];
      assert SlotsOf(path[1..]) == SlotsOf(path)[1..];
      TypeAndRemoveStep(doc, path, value);
      var child := RemovalStep(doc, path[0]);
      if child.Some? {
        TypeThenEmptyWithoutCleanup(child.value, path[1..], value);
      }
    }
  }

  /** Where the whole of a path is in the document already, typing and removing does not
      change what `get_at_path` can reach on the way. */
  lemma {:induction false} SameReach(doc: Json, path: Path, value: Json, n: nat)
    requires n < |path| && SetAtPath(doc, path, value).Some? && Walk(doc, path[..n]).Some?
    ensures TypedAndRemoved(doc, path, value).Some?
    ensures GetAtPath(TypedAndRemoved(doc, path, value).value, path[..n]).Some? <==> GetAtPath(doc, path[..n]).Some?
    decreases n
  {
    if n > 0 {
      TypeAndRemoveStep(doc, path, value);
      var child := RemovalStep(doc, path[0]);
      var after := TypedAndRemoved(doc, path, value).value;
      assert path[..n][1..] == path[1..][..n - 1];
      assert SlotsOf(path[..n])[1..] == SlotsOf(path[1..][..n - 1]);
      SameReach(child.value, path[1..], value, n - 1);
      if doc.Obj? && ParseU64(path[0]).Some? {
        GetMissing(SlotsOf(path[..n])[1..]);
      }
    }
  }

  lemma {:induction false} FitsNothing(path: seq<Slot>)
    ensures Fits(None, path) <==> Fits(Some(EMPTY_OBJECT), path)
  {
  }

  lemma ReadableStep(doc: Json, path: Path)
    requires path != [] && GetAtPath(doc, path).Some?
    ensures var child := Child(Some(doc), SlotOf(path[0]));
            child.Some? && child == RemovalStep(doc, path[0]) && GetAtPath(child.value, path[1..]).Some?
  {
    var slots := SlotsOf(path);
    assert slots[1..] == SlotsOf(path[1..]);
    if Child(Some(doc), slots[0]).None? {
      GetMissing(slots[1..]);
    }
  }

  lemma NoArrayInside(path: Path, n: nat)
    requires n <= |path|
    ensures LengthAt(Some(EMPTY_OBJECT), path, n).None?
  {
    if n > 0 {
      GetMissing(SlotsOf(path[..n])[1..]);
    }
  }

  /** Where the first step of a path is in order, the trouble is further down. */
  lemma DoesNotFitBelow(doc: Json, path: Path, m: nat)
    requires 0 < m <= |path| && !Fits(Some(doc), SlotsOf(path[..m]))
    requires if doc.Arr? then ParseU64(path[0]).Some? && RemovalStep(doc, path[0]).Some?
             else doc.Obj? && ParseU64(path[0]).None?
    ensures !Fits(Some(OrEmpty(RemovalStep(doc, path[0]))), SlotsOf(path[1..][..m - 1]))
  {
    var slots := SlotsOf(path[..m]);
    assert slots[1..] == SlotsOf(path[1..][..m - 1]);
    FitsNothing(slots[1..]);
  }

  /** A path that does not fit, but along which typing makes every step readable, meets
      an array that is too short. */
  lemma {:induction false} MeetsShortArray(doc: Json, path: Path, value: Json, m: nat) returns (n: nat)
    requires m < |path| && SetAtPath(doc, path, value).Some? && !Fits(Some(doc), SlotsOf(path[..m]))
    requires TypedAndRemoved(doc, path, value).Some?
    requires GetAtPath(TypedAndRemoved(doc, path, value).value, path[..m]).Some?
    ensures n < m && ParseU64(path[n]).Some? && LengthAt(Some(doc), path, n).Some?
    ensures LengthAt(Some(doc), path, n).value <= ParseU64(path[n]).value
    decreases m
  {
    TypeAndRemoveStep(doc, path, value);
    var child := RemovalStep(doc, path[0]);
    ReadableStep(TypedAndRemoved(doc, path, value).value, path[..m]);
    if doc.Arr? && child.None? {
      n := 0;
      assert SlotsOf(path[..0]) == [];
    } else {
      DoesNotFitBelow(doc, path, m);
      assert path[..m][1..] == path[1..][..m - 1];
      n := MeetsShortArray(OrEmpty(child), path[1..], value, m - 1);
      NoArrayInside(path[1..], n);
      n := n + 1;
      LengthBelow(Some(doc), path, n);
    }
  }

  /** Nothing to prune: the document is the saved one, or the loop cannot see the parent
      or finds it saved. */
  lemma CleanupStopsAtOnce(doc: Json, baseline: Json, path: Path)
    requires path != []
    requires var parent := path[..|path| - 1];
             || doc == baseline
             || GetAtPath(doc, parent) != Some(EMPTY_OBJECT)
             || GetAtPath(baseline, parent).Some?
    ensures CleanupEmptyParents(doc, baseline, path) == doc
  {
  }

  /** On a fitting path the clear gives back the saved document. */
  lemma FittingFieldIsRestored(baseline: Json, path: Path, value: Json)
    requires EndsInKey(SlotsOf(path)) && Fits(Some(baseline), SlotsOf(path)) && GetAtPath(baseline, path).None?
    ensures SetAtPath(baseline, path, value).Some?
    ensures ClearField(SetAtPath(baseline, path, value).value, baseline, path) == Some(baseline)
  {
    var fields: Fields := {SlotsOf(path)};
    var none: Fields := {};
    StartTracks(fields, baseline, none);
    EditKeepsInvariant(fields, SetTo(path, value), baseline, baseline, none);
    assert BareAfter(SetTo(path, value), none) == none == BareAfter(Clear(path), none);
    var typed := SetAtPath(baseline, path, value).value;
    EditKeepsInvariant(fields, Clear(path), typed, baseline, none);
    assert SameFieldValues(fields, ClearField(typed, baseline, path), Some(baseline));
    Determined(fields, ClearField(typed, baseline, path).value, baseline, Some(baseline));
  }

  lemma {:induction false} ReadableIsWalkable(doc: Json, path: Path)
    requires GetAtPath(doc, path).Some?
    ensures Walk(doc, path).Some?
    decreases |path|
  {
    if path != [] {
      ReadableStep(doc, path);
      ReadableIsWalkable(RemovalStep(doc, path[0]).value, path[1..]);
    }
  }

  /** A fitting parent that is not there extends to a fitting field. */
  lemma {:induction false} FitsBeyond(doc: Option<Json>, slots: seq<Slot>)
    requires EndsInKey(slots) && Fits(doc, slots[..|slots| - 1]) && Get(doc, slots[..|slots| - 1]).None?
    ensures Fits(doc, slots) && Get(doc, slots).None?
    decreases |slots|
  {
    if |slots| > 1 {
      assert slots[..|slots| - 1][1..] == slots[1..][..|slots| - 2];
      FitsBeyond(Child(doc, slots[0]), slots[1..]);
    } else {
      assert slots[..0] == [];
    }
  }

  /** Typing, then clearing with the cleanup. */
  function TypedAndCleared(baseline: Json, path: Path, value: Json): Option<Json> {
    var typed := SetAtPath(baseline, path, value);
    if typed.None? then None else ClearField(typed.value, baseline, path)
  }

  lemma SavedParentStays(baseline: Json, path: Path, value: Json)
    requires EndsInKey(SlotsOf(path)) && SetAtPath(baseline, path, value).Some?
    requires Walk(baseline, path[..|path| - 1]).Some?
    ensures TypedAndCleared(baseline, path, value) == TypedAndRemoved(baseline, path, value)
  {
    var parent := path[..|path| - 1];
    var removed := TypedAndRemoved(baseline, path, value).value;
    SameReach(baseline, path, value, |path| - 1);
    CleanupStopsAtOnce(removed, baseline, path);
  }

  lemma UnsavedParentIsPruned(baseline: Json, path: Path, value: Json)
    requires EndsInKey(SlotsOf(path)) && SetAtPath(baseline, path, value).Some?
    requires GetAtPath(baseline, path[..|path| - 1]).None? && Fits(Some(baseline), SlotsOf(path[..|path| - 1]))
    ensures TypedAndCleared(baseline, path, value) == Some(baseline)
  {
    assert SlotsOf(path[..|path| - 1]) == SlotsOf(path)[..|path| - 1];
    FitsBeyond(Some(baseline), SlotsOf(path));
    FittingFieldIsRestored(baseline, path, value);
  }

  lemma UnsavedParentSurvives(baseline: Json, path: Path, value: Json)
    requires EndsInKey(SlotsOf(path)) && SetAtPath(baseline, path, value).Some?
    requires TypedAndRemoved(baseline, path, value) != Some(baseline)
    requires !Fits(Some(baseline), SlotsOf(path[..|path| - 1]))
    ensures TypedAndCleared(baseline, path, value) != Some(baseline)
  {
    var removed := TypedAndRemoved(baseline, path, value).value;
    if GetAtPath(removed, path[..|path| - 1]).Some? {
      var n := MeetsShortArray(baseline, path, value, |path| - 1);
      CreatedElementSurvives(baseline, path, value, n);
    } else {
      CleanupStopsAtOnce(removed, baseline, path);
    }
  }

  /** Type-then-clear, for every saved document and every field path that can be typed
      into at all: the editor is clean again if and only if the saved document lacked the
      field and the path is undoable in it. */
  lemma TypeThenClearRestores(baseline: Json, path: Path, value: Json)
    requires EndsInKey(SlotsOf(path)) && SetAtPath(baseline, path, value).Some?
    ensures TypedAndCleared(baseline, path, value) == Some(baseline) <==>
            Walk(baseline, path).None? && Undoable(baseline, path)
  {
    var parent := path[..|path| - 1];
    TypeThenEmptyWithoutCleanup(baseline, path, value);
    if Walk(baseline, parent).Some? {
      SavedParentStays(baseline, path, value);
    } else {
      UnsavedParent(baseline, path);
      if Fits(Some(baseline), SlotsOf(parent)) {
        UnsavedParentIsPruned(baseline, path, value);
      } else {
        UnsavedParentSurvives(baseline, path, value);
      }
    }
  }

  lemma UnsavedParent(doc: Json, path: Path)
    requires path != [] && Walk(doc, path[..|path| - 1]).None?
    ensures GetAtPath(doc, path[..|path| - 1]).None? && Walk(doc, path).None?
  {
    if GetAtPath(doc, path[..|path| - 1]).Some? {
      ReadableIsWalkable(doc, path[..|path| - 1]);
    }
    WalkPrefix(doc, path, |path| - 1);
  }

  lemma {:induction false} WalkPrefix(doc: Json, path: Path, n: nat)
    requires n <= |path| && Walk(doc, path[..n]).None?
    ensures Walk(doc, path).None?
    decreases n
  {
    if n > 0 {
      assert path[..n][1..] == path[1..][..n - 1];
      var next := RemovalStep(doc, path[0]);
      if next.Some? {
        WalkPrefix(next.value, path[1..], n - 1);
      }
    }
  }

  /** Every index on the way must name a saved element. Where one does not (the array is
      too short, is not there, or is an object), typing below it and clearing again
      leaves the editor dirty, unless the parent was saved under numeric keys. */
  lemma UnsavedElementSurvives(baseline: Json, path: Path, value: Json, n: nat)
    requires EndsInKey(SlotsOf(path)) && SetAtPath(baseline, path, value).Some?
    requires n < |path| - 1 && ParseU64(path[n]).Some?
    requires GetAtPath(baseline, path[..n + 1]).None? && Walk(baseline, path[..|path| - 1]).None?
    ensures TypedAndCleared(baseline, path, value) != Some(baseline)
  {
    TypeThenClearRestores(baseline, path, value);
    var slots := SlotsOf(path[..|path| - 1]);
    if Fits(Some(baseline), slots) {
      assert slots[..n + 1] == SlotsOf(path[..n + 1]);
      FitsPrefix(Some(baseline), slots, n + 1);
      FitsLastIndex(Some(baseline), slots[..n + 1]);
    }
  }

  // ---- what a write does where the path does not fit ----------------------------------

  /** The write reached its key, or the parent is there and is no object. */
  predicate IsTyped(doc: Json, path: Path, value: Json, after: Json)
    requires path != []
  {
    var parent := Walk(doc, path[..|path| - 1]);
    if parent.Some? && !parent.value.Obj? then after == doc else Walk(after, path) == Some(value)
  }

  lemma OneKeyTyped(doc: Json, path: Path, value: Json)
    requires |path| == 1 && ParseU64(path[0]).None?
    ensures IsTyped(doc, path, value, AssignLast(doc, path[0], value))
  {
    assert path[..0] == [];
    if doc.Obj? {
      var after := AssignLast(doc, path[0], value);
      assert RemovalStep(after, path[0]) == Some(value);
      assert path[1..] == [];
    }
  }

  lemma TypedBelow(doc: Json, path: Path, value: Json, after: Json)
    requires |path| > 1
    requires var child, inner := RemovalStep(doc, path[0]), RemovalStep(after, path[0]);
             && inner.Some? && IsTyped(OrEmpty(child), path[1..], value, inner.value)
             && (child.Some? && inner == child ==> after == doc)
    ensures IsTyped(doc, path, value, after)
  {
    var n, child := |path| - 1, RemovalStep(doc, path[0]);
    assert path[..n][1..] == path[1..][..n - 1];
    if child.None? && n > 1 {
      assert RemovalStep(EMPTY_OBJECT, path[1..][0]).None?;
    }
  }

  /** A value typed at a key is found there again by the walk, unless the parent is there
      and is no object: then nothing changes. */
  lemma {:induction false} TypedIsFound(doc: Json, path: Path, value: Json)
    requires EndsInKey(SlotsOf(path)) && SetAtPath(doc, path, value).Some?
    ensures IsTyped(doc, path, value, SetAtPath(doc, path, value).value)
    decreases |path|
  {
    assert SlotsOf(path)[|path| - 1] == SlotOf(path[|path| - 1]);
    if |path| == 1 {
      OneKeyTyped(doc, path, value);
    } else {
      assert SlotsOf(path[1..]) == SlotsOf(path)[1..];
      TypedStep(doc, path, value);
      TypedIsFound(OrEmpty(RemovalStep(doc, path[0])), path[1..], value);
      TypedBelow(doc, path, value, SetAtPath(doc, path, value).value);
    }
  }

  lemma TypedStep(doc: Json, path: Path, value: Json)
    requires |path| > 1 && SetAtPath(doc, path, value).Some?
    ensures var child, after := RemovalStep(doc, path[0]), SetAtPath(doc, path, value).value;
            var inner := SetAtPath(OrEmpty(child), path[1..], value);
            && inner.Some? && RemovalStep(after, path[0]) == inner
            && (child.Some? && inner == child ==> after == doc)
  {
    var child := RemovalStep(doc, path[0]);
    match doc
    case Arr(items) =>
      var i := ParseU64(path[0]).value;
      assert PadTo(items, i + 1, EMPTY_OBJECT)[i] == OrEmpty(child);
      if child.Some? {
        assert items[i := items[i]] == items;
      }
    case Obj(fields) =>
      if child.Some? {
        assert fields[path[0] := fields[path[0]]] == fields;
      }
  }

  /** The walk of a write cannot go on: neither an object nor an array at an index. */
  predicate Blocks(doc: Json, segment: string) {
    !doc.Obj? && !(doc.Arr? && ParseU64(segment).Some?)
  }

  ghost predicate BlocksAt(doc: Json, path: Path, n: nat) {
    n < |path| - 1 && Walk(doc, path[..n]).Some? && Blocks(Walk(doc, path[..n]).value, path[n])
  }

  lemma BlocksBelow(doc: Json, path: Path, n: nat)
    requires |path| > 1 && !Blocks(doc, path[0])
    ensures var child := RemovalStep(doc, path[0]);
            BlocksAt(doc, path, n + 1) <==> child.Some? && BlocksAt(child.value, path[1..], n)
  {
    if n + 1 < |path| - 1 {
      assert path[..n + 1][1..] == path[1..][..n];
    }
  }

  /** `set_at_path` panics exactly on an empty path and where the walk is blocked before its
      last segment. */
  lemma {:induction false} PanicsIffBlocked(doc: Json, path: Path, value: Json)
    ensures SetAtPath(doc, path, value).None? <==> path == [] || exists n: nat :: BlocksAt(doc, path, n)
    decreases |path|
  {
    if |path| > 1 {
      assert path[..0] == [];
      if Blocks(doc, path[0]) {
        assert BlocksAt(doc, path, 0);
      } else {
        var child := RemovalStep(doc, path[0]);
        PanicsBelow(doc, path, value);
        PanicsIffBlocked(OrEmpty(child), path[1..], value);
        if child.None? {
          NothingBlocksInside(path[1..]);
        }
        if n: nat :| BlocksAt(doc, path, n) {
          assert n > 0;
          BlocksBelow(doc, path, n - 1);
        }
        if n: nat :| BlocksAt(OrEmpty(child), path[1..], n) {
          BlocksBelow(doc, path, n);
        }
      }
    }
  }

  lemma NothingBlocksInside(path: Path)
    ensures forall n: nat :: !BlocksAt(EMPTY_OBJECT, path, n)
  {
    forall n: nat ensures !BlocksAt(EMPTY_OBJECT, path, n) {
      if n > 0 && n < |path| {
        assert RemovalStep(EMPTY_OBJECT, path[..n][0]).None?;
      }
    }
  }

  lemma PanicsBelow(doc: Json, path: Path, value: Json)
    requires |path| > 1 && !Blocks(doc, path[0])
    ensures SetAtPath(doc, path, value).None? <==>
            SetAtPath(OrEmpty(RemovalStep(doc, path[0])), path[1..], value).None?
  {
    if doc.Arr? {
      var i := ParseU64(path[0]).value;
      assert PadTo(doc.items, i + 1, EMPTY_OBJECT)[i] == OrEmpty(RemovalStep(doc, path[0]));
    }
  }

  /** No write loses anything: whatever the path does, every value at a diverging path that
      was there stays. */
  lemma {:induction false} SetKeepsOthers(doc: Json, path: Path, other: Path, value: Json)
    requires SetAtPath(doc, path, value).Some? && Diverge(SlotsOf(path), SlotsOf(other))
    requires GetAtPath(doc, other).Some?
    ensures GetAtPath(SetAtPath(doc, path, value).value, other) == GetAtPath(doc, other)
    decreases |path|
  {
    var p, q := SlotsOf(path), SlotsOf(other);
    ReadableStep(doc, other);
    var after := SetAtPath(doc, path, value).value;
    assert q[1..] == SlotsOf(other[1..]) && p[1..] == SlotsOf(path[1..]);
    if p[0] != q[0] {
      SetElsewhere(doc, path, q[0], value);
    } else {
      TypedStep(doc, path, value);
      assert RemovalStep(doc, path[0]) == Child(Some(doc), p[0]);
      SetKeepsOthers(Child(Some(doc), p[0]).value, path[1..], other[1..], value);
    }
  }

  lemma SetElsewhere(doc: Json, path: Path, slot: Slot, value: Json)
    requires path != [] && SetAtPath(doc, path, value).Some? && Child(Some(doc), slot).Some?
    requires slot != SlotOf(path[0]) && (slot.Key? ==> ParseU64(slot.name).None?)
    ensures Child(SetAtPath(doc, path, value), slot) == Child(Some(doc), slot)
  {
  }

  /** What fills an array that is too short: empty objects on the way, nulls at the end. */
  lemma {:induction false} FillersAre(doc: Json, path: Path, value: Json, n: nat, j: nat)
    requires n < |path| && ParseU64(path[n]).Some? && LengthAt(Some(doc), path, n).Some?
    requires LengthAt(Some(doc), path, n).value <= j < ParseU64(path[n]).value && SetAtPath(doc, path, value).Some?
    ensures Get(SetAtPath(doc, path, value), SlotsOf(path[..n]) + [Index(j)])
         == Some(if n < |path| - 1 then EMPTY_OBJECT else Null)
    decreases n
  {
    var slots := SlotsOf(path[..n]) + [Index(j)];
    if n == 0 {
      assert SlotsOf(path[..0]) == [] && slots == [Index(j)] && slots[1..] == [];
    } else {
      LengthBelow(Some(doc), path, n);
      assert SlotsOf(path[..n])[1..] == SlotsOf(path[1..][..n - 1]);
      assert slots[1..] == SlotsOf(path[1..][..n - 1]) + [Index(j)];
      var child := Child(Some(doc), SlotOf(path[0]));
      if child.None? {
        GetMissing(SlotsOf(path[1..][..n - 1]));
        assert false;
      } else {
        TypedStep(doc, path, value);
        FillersAre(child.value, path[1..], value, n - 1, j);
      }
    }
  }

  // ---- runs that remove without cleaning up -----------------------------------------

  /** An object on the way to a field that the saved document lacks and that holds
      nothing, once it is tidied. */
  predicate IsOrphan(fields: Fields, tidied: Json, saved: Option<Json>) {
    [] !in fields && saved.None? && tidied == EMPTY_OBJECT
  }

  /** The document without its orphans. */
  function Tidied(fields: Fields, doc: Json, saved: Option<Json>): Json
    decreases doc
  {
    if [] in fields || fields == {} then
      doc
    else
      match doc
      case Obj(now) =>
        var below := map k | k in now :: Tidied(Under(fields, Key(k)), now[k], Child(saved, Key(k)));
        Obj(map k | k in below && !IsOrphan(Under(fields, Key(k)), below[k], Child(saved, Key(k))) :: below[k])
      case Arr(now) =>
        Arr(seq(|now|, i requires 0 <= i < |now| =>
                         Tidied(Under(fields, Index(i)), now[i], Child(saved, Index(i)))))
      case _ => doc
  }

  /** One child of a tidied container. */
  lemma TidiedChild(fields: Fields, doc: Json, saved: Option<Json>, slot: Slot)
    requires [] !in fields && fields != {}
    ensures var child := Child(Some(doc), slot);
            if child.None? then
              Child(Some(Tidied(fields, doc, saved)), slot).None?
            else
              var below := Tidied(Under(fields, slot), child.value, Child(saved, slot));
              Child(Some(Tidied(fields, doc, saved)), slot)
              == if slot.Key? && IsOrphan(Under(fields, slot), below, Child(saved, slot)) then None else Some(below)
  {
  }

  /** Tidying moves no field. */
  lemma {:induction false} TidiedKeepsField(fields: Fields, doc: Json, saved: Option<Json>, p: seq<Slot>)
    requires p in fields
    ensures Get(Some(Tidied(fields, doc, saved)), p) == Get(Some(doc), p)
    decreases |p|
  {
    if [] !in fields {
      var slot, rest := p[0], p[1..];
      var child := Child(Some(doc), slot);
      TidiedChild(fields, doc, saved, slot);
      if child.Some? {
        UnderMember(fields, slot, rest);
        assert [slot] + rest == p;
        TidiedKeepsField(Under(fields, slot), child.value, Child(saved, slot), rest);
        if rest != [] {
          GetEmpty(rest);
        }
        GetMissing(rest);
      }
    }
  }

  /** Tidying a document that satisfies the run invariant leaves no bare field, except
      that the top node may itself be an orphan. */
  lemma {:induction false} TidiedTracks(fields: Fields, doc: Json, saved: Option<Json>, bare: Fields)
    requires Tracks(fields, doc, saved, bare)
    ensures var tidied := Tidied(fields, doc, saved);
            Tracks(fields, tidied, saved, {}) || IsOrphan(fields, tidied, saved)
    decreases doc
  {
    if [] !in fields && fields != {} {
      match doc {
        case Obj(now) =>
          TidiedFieldsTrack(fields, now, saved, bare);
        case Arr(now) =>
          forall i | 0 <= i < |now|
            ensures Tracks(Under(fields, Index(i)), Tidied(fields, doc, saved).items[i], Some(saved.value.items[i]), Under({}, Index(i)))
          {
            UnderNothing(Index(i));
            TidiedTracks(Under(fields, Index(i)), now[i], Some(saved.value.items[i]), Under(bare, Index(i)));
          }
      }
    }
  }

  lemma {:induction false} TidiedFieldsTrack(fields: Fields, now: map<string, Json>, saved: Option<Json>, bare: Fields)
    requires Tracks(fields, Obj(now), saved, bare) && [] !in fields && fields != {}
    ensures var tidied := Tidied(fields, Obj(now), saved);
            Tracks(fields, tidied, saved, {}) || IsOrphan(fields, tidied, saved)
    decreases Obj(now), 0
  {
    var tidied := Tidied(fields, Obj(now), saved);
    forall k | k in tidied.fields
      ensures Tracks(Under(fields, Key(k)), tidied.fields[k], Child(saved, Key(k)), Under({}, Key(k)))
    {
      TidiedChild(fields, Obj(now), saved, Key(k));
      UnderNothing(Key(k));
      TidiedTracks(Under(fields, Key(k)), now[k], Child(saved, Key(k)), Under(bare, Key(k)));
    }
    TidiedKeepsSavedKeys(fields, now, saved);
  }

  lemma TidiedKeepsSavedKeys(fields: Fields, now: map<string, Json>, saved: Option<Json>)
    requires [] !in fields && fields != {}
    ensures forall k :: Child(saved, Key(k)).Some? ==> (k in Tidied(fields, Obj(now), saved).fields <==> k in now)
  {
    forall k | Child(saved, Key(k)).Some? ensures k in Tidied(fields, Obj(now), saved).fields <==> k in now {
      TidiedChild(fields, Obj(now), saved, Key(k));
    }
  }

  /** The same edits, each removal followed by the cleanup. */
  function WithCleanup(edits: seq<Edit>): (cleaned: seq<Edit>)
    ensures |cleaned| == |edits|
    ensures forall i :: 0 <= i < |edits| ==>
              cleaned[i] == if edits[i].RemoveOnly? then Clear(edits[i].path) else edits[i]
  {
    seq(|edits|, i requires 0 <= i < |edits| => if edits[i].RemoveOnly? then Clear(edits[i].path) else edits[i])
  }

  lemma {:induction false} CleanupKeepsIntent(edits: seq<Edit>, p: seq<Slot>, start: Option<Json>, baseline: Json)
    ensures LastIntended(WithCleanup(edits), p, start, baseline) == LastIntended(edits, p, start, baseline)
    decreases |edits|
  {
    if edits != [] {
      assert WithCleanup(edits)[1..] == WithCleanup(edits[1..]);
      CleanupKeepsIntent(edits[1..], p,
                         if SlotsOf(edits[0].path) == p then Intended(edits[0], baseline) else start, baseline);
    }
  }

  lemma {:induction false} CleanupLeavesNothingBare(edits: seq<Edit>)
    ensures LeftBare(WithCleanup(edits), {}) == {}
    decreases |edits|
  {
    if edits != [] {
      var cleaned := WithCleanup(edits);
      assert cleaned[1..] == WithCleanup(edits[1..]);
      CleanupLeavesNothingBare(edits[1..]);
      var none: Fields := {};
      assert BareAfter(cleaned[0], none) == none;
    }
  }

  /** Whatever mixture of inputs is used, with and without the cleanup: the form is the
      document a run with every cleanup would have left, plus exactly the orphans; and
      the editor is clean exactly when every field is as saved and there is no orphan. */
  lemma BareRunsDifferByOrphans(fields: Fields, edits: seq<Edit>, baseline: Json)
    requires EditableFields(fields, baseline) && OnFields(edits, fields)
    ensures var form := Run(edits, baseline, baseline);
            && form.Some?
            && Run(WithCleanup(edits), baseline, baseline) == Some(Tidied(fields, form.value, Some(baseline)))
            && (form == Some(baseline) <==>
                SameFieldValues(fields, form, Some(baseline)) && Tidied(fields, form.value, Some(baseline)) == form.value)
  {
    var none: Fields := {};
    var cleaned := WithCleanup(edits);
    StartTracks(fields, baseline, none);
    RunKeepsInvariant(fields, edits, baseline, baseline, none);
    RunKeepsInvariant(fields, cleaned, baseline, baseline, none);
    CleanupLeavesNothingBare(edits);
    var form, other := Run(edits, baseline, baseline).value, Run(cleaned, baseline, baseline).value;
    var tidied := Tidied(fields, form, Some(baseline));
    TidiedTracks(fields, form, Some(baseline), LeftBare(edits, none));
    forall p | p in fields ensures Get(Some(tidied), p) == Get(Some(form), p) == Get(Some(other), p) {
      TidiedKeepsField(fields, form, Some(baseline), p);
      CleanupKeepsIntent(edits, p, Get(Some(baseline), p), baseline);
    }
    Determined(fields, tidied, other, Some(baseline));
    if SameFieldValues(fields, Some(form), Some(baseline)) {
      Determined(fields, tidied, baseline, Some(baseline));
    }
  }
}
