/** Deep merge of configuration documents: `merge_json` of
    mac-mgmt-agent/src/config.rs and its twin in mac-mgmt-agent/src/validator.rs. */
module DeepMerge {
  import opened Prelude
  import opened Documents

  /** Objects merge key by key; anything else is replaced by the overlay. */
  function Merge(base: Json, overlay: Json): Json
    decreases overlay
  {
    if base.Obj? && overlay.Obj? then
      Obj(map k | k in base.fields.Keys + overlay.fields.Keys ::
            if k !in overlay.fields then base.fields[k]
            else if k in base.fields then Merge(base.fields[k], overlay.fields[k])
            else overlay.fields[k])
    else
      overlay
  }

  /** The in-place loop: for each overlay key, find or create the slot and merge into it. */
  method MergeJson(base: Json, overlay: Json) returns (merged: Json)
    ensures merged == Merge(base, overlay)
    decreases overlay
  {
    if base.Obj? && overlay.Obj? {
      var fields := MergeFields(base.fields, overlay.fields, overlay);
      merged := Obj(fields);
    } else {
      merged := overlay;
    }
  }

  /** What the merge leaves at one key. */
  function MergedField(base: map<string, Json>, overlay: map<string, Json>, k: string): Json
    requires k in base || k in overlay
  {
    if k !in overlay then base[k] else if k in base then Merge(base[k], overlay[k]) else overlay[k]
  }

  /** `fields` after every overlay key except those in `todo` has been merged in. */
  predicate MergedExcept(base: map<string, Json>, overlay: map<string, Json>, todo: set<string>, fields: map<string, Json>) {
    && fields.Keys == base.Keys + (overlay.Keys - todo)
    && forall k :: k in fields ==> fields[k] == if k in todo && k in base then base[k] else MergedField(base, overlay, k)
  }

  lemma MergeOne(base: map<string, Json>, overlay: map<string, Json>, todo: set<string>, fields: map<string, Json>, k: string)
    requires MergedExcept(base, overlay, todo, fields) && todo <= overlay.Keys && k in todo
    ensures var slot := if k in fields then fields[k] else Null;
            MergedExcept(base, overlay, todo - {k}, fields[k := Merge(slot, overlay[k])])
  {
    var slot := if k in fields then fields[k] else Null;
    assert Merge(slot, overlay[k]) == MergedField(base, overlay, k);
  }

  lemma MergeDone(base: map<string, Json>, overlay: map<string, Json>, fields: map<string, Json>)
    requires MergedExcept(base, overlay, {}, fields)
    ensures Obj(fields) == Merge(Obj(base), Obj(overlay))
  {
    assert fields == Merge(Obj(base), Obj(overlay)).fields;
  }

  method MergeFields(base: map<string, Json>, overlay: map<string, Json>, ghost whole: Json)
    returns (fields: map<string, Json>)
    requires whole == Obj(overlay)
    ensures Obj(fields) == Merge(Obj(base), Obj(overlay))
    decreases whole, 0
  {
    fields := base;
    var todo := overlay.Keys;
    while todo != {}
      invariant todo <= overlay.Keys
      invariant MergedExcept(base, overlay, todo, fields)
      decreases |todo|
    {
      var k :| k in todo;
      var slot := if k in fields then fields[k] else Null;
      var value := MergeJson(slot, overlay[k]);
      MergeOne(base, overlay, todo, fields, k);
      fields := fields[k := value];
      todo := todo - {k};
    }
    MergeDone(base, overlay, fields);
  }

  // ---- what a merged document holds ----------------------------------------

  /** The value under a path of keys. */
  function At(doc: Option<Json>, path: seq<string>): Option<Json>
    decreases |path|
  {
    if path == [] then doc else At(Child(doc, Key(path[0])), path[1..])
  }

  lemma {:induction false} AtMissing(path: seq<string>)
    ensures At(None, path) == None
  {
    if path != [] {
      AtMissing(path[1..]);
    }
  }

  /** The overlay puts a non-object somewhere strictly above `path`. */
  predicate CutAbove(overlay: Json, path: seq<string>) {
    path != [] && (if overlay.Obj? then path[0] in overlay.fields && CutAbove(overlay.fields[path[0]], path[1..]) else true)
  }

  function MergeOnto(base: Option<Json>, overlay: Json): Json {
    if base.Some? then Merge(base.value, overlay) else overlay
  }

  /** What stands at each path of a merge, for every path: the overlay's value,
      merged onto the base's where both have one; the base's value where the overlay
      has none and does not cut the path off; nothing otherwise. */
  lemma {:induction false} MergedAt(base: Json, overlay: Json, path: seq<string>)
    ensures At(Some(Merge(base, overlay)), path) ==
            var over := At(Some(overlay), path);
            if over.Some? then Some(MergeOnto(At(Some(base), path), over.value))
            else if CutAbove(overlay, path) then None
            else At(Some(base), path)
    decreases |path|
  {
    if path != [] {
      var k, rest := path[0], path[1..];
      AtMissing(rest);
      if base.Obj? && overlay.Obj? {
        if k in base.fields && k in overlay.fields {
          MergedAt(base.fields[k], overlay.fields[k], rest);
        } else if k in overlay.fields {
          CutMeansAbsent(overlay.fields[k], rest);
        }
      } else {
        CutMeansAbsent(overlay, path);
        if overlay.Obj? && At(Some(overlay), path).None? {
          assert At(Some(base), path).None?;
        }
      }
    }
  }

  /** A path cut off by a document is absent from it. */
  lemma {:induction false} CutMeansAbsent(doc: Json, path: seq<string>)
    ensures CutAbove(doc, path) ==> At(Some(doc), path).None?
    decreases |path|
  {
    if CutAbove(doc, path) {
      if doc.Obj? {
        CutMeansAbsent(doc.fields[path[0]], path[1..]);
      } else {
        AtMissing(path[1..]);
      }
    }
  }

  /** The leaves of a merge, exactly: every overlay leaf, and every base leaf at a
      path the overlay neither holds nor cuts off; no other leaf appears. */
  lemma LeavesOfMerge(base: Json, overlay: Json, path: seq<string>, leaf: Json)
    requires !leaf.Obj?
    ensures At(Some(Merge(base, overlay)), path) == Some(leaf) <==>
            || At(Some(overlay), path) == Some(leaf)
            || (At(Some(base), path) == Some(leaf) && At(Some(overlay), path).None? && !CutAbove(overlay, path))
  {
    MergedAt(base, overlay, path);
  }

  lemma {:induction false} MergeWithItself(doc: Json)
    ensures Merge(doc, doc) == doc
    decreases doc
  {
    if doc.Obj? {
      forall k | k in doc.fields ensures Merge(doc.fields[k], doc.fields[k]) == doc.fields[k] {
        MergeWithItself(doc.fields[k]);
      }
      assert Merge(doc, doc).fields == doc.fields;
    }
  }

  /** `outer` already holds everything `inner` holds, as far as keys go. */
  predicate Absorbs(outer: Json, inner: Json)
    decreases inner
  {
    inner.Obj? && outer.Obj? ==>
      forall k :: k in inner.fields ==> k in outer.fields && Absorbs(outer.fields[k], inner.fields[k])
  }

  /** Merging onto a base changes nothing in the overlay exactly when the overlay
      absorbs the base. */
  lemma {:induction false} AbsorbedBase(base: Json, overlay: Json)
    ensures Merge(base, overlay) == overlay <==> Absorbs(overlay, base)
    decreases base
  {
    if base.Obj? && overlay.Obj? {
      forall k | k in base.fields && k in overlay.fields
        ensures Merge(base.fields[k], overlay.fields[k]) == overlay.fields[k]
           <==> Absorbs(overlay.fields[k], base.fields[k])
      {
        AbsorbedBase(base.fields[k], overlay.fields[k]);
      }
      var merged := Merge(base, overlay).fields;
      if Absorbs(overlay, base) {
        assert merged.Keys == overlay.fields.Keys;
        assert merged == overlay.fields;
      } else {
        var k :| k in base.fields && !(k in overlay.fields && Absorbs(overlay.fields[k], base.fields[k]));
        assert k in merged;
        assert k in overlay.fields ==> merged[k] != overlay.fields[k];
      }
    }
  }

  /** Applying the same overlay again changes nothing. */
  lemma {:induction false} MergeIsIdempotent(base: Json, overlay: Json)
    ensures Merge(Merge(base, overlay), overlay) == Merge(base, overlay)
    decreases overlay
  {
    if overlay.Obj? {
      if base.Obj? {
        var once := Merge(base, overlay);
        forall k | k in overlay.fields
          ensures Merge(once.fields[k], overlay.fields[k]) == once.fields[k]
        {
          if k in base.fields {
            MergeIsIdempotent(base.fields[k], overlay.fields[k]);
          } else {
            MergeWithItself(overlay.fields[k]);
          }
        }
        assert Merge(once, overlay).fields == once.fields;
      } else {
        MergeWithItself(overlay);
      }
    }
  }

  // ---- associativity, exactly ------------------------------------------------

  /** Grouping does not matter here: wherever the outer two are objects and the
      middle one is not, the last already absorbs the first. */
  predicate Regroupable(a: Json, b: Json, c: Json)
    decreases a
  {
    a.Obj? && c.Obj? ==>
      if b.Obj?
      then forall k :: k in a.fields && k in b.fields && k in c.fields
                       ==> Regroupable(a.fields[k], b.fields[k], c.fields[k])
      else Absorbs(c, a)
  }

  /** Deep merge is associative exactly on regroupable triples. */
  lemma {:induction false} AssociativeIffRegroupable(a: Json, b: Json, c: Json)
    ensures Merge(Merge(a, b), c) == Merge(a, Merge(b, c)) <==> Regroupable(a, b, c)
    decreases a
  {
    if a.Obj? && c.Obj? {
      if b.Obj? {
        ObjectsRegroup(a, b, c);
      } else {
        AbsorbedBase(a, c);
      }
    }
  }

  lemma {:induction false} ObjectsRegroup(a: Json, b: Json, c: Json)
    requires a.Obj? && b.Obj? && c.Obj?
    ensures Merge(Merge(a, b), c) == Merge(a, Merge(b, c)) <==> Regroupable(a, b, c)
    decreases a, 0
  {
    var left, right := Merge(Merge(a, b), c).fields, Merge(a, Merge(b, c)).fields;
    assert left.Keys == right.Keys == a.fields.Keys + b.fields.Keys + c.fields.Keys;
    forall k | k in left
      ensures left[k] == right[k] <==>
              (k in a.fields && k in b.fields && k in c.fields
               ==> Regroupable(a.fields[k], b.fields[k], c.fields[k]))
    {
      if k in a.fields && k in b.fields && k in c.fields {
        AssociativeIffRegroupable(a.fields[k], b.fields[k], c.fields[k]);
      }
    }
    if Regroupable(a, b, c) {
      assert left == right;
    } else {
      var k :| k in a.fields && k in b.fields && k in c.fields
               && !Regroupable(a.fields[k], b.fields[k], c.fields[k]);
      assert left[k] != right[k];
    }
  }
}
