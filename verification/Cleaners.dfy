/** Recursive cleaners: `prune` (config-ui/src/extra_config_modal.rs),
    `strip_defs_refs` (mac-mgmt-agent/src/validator.rs) and `filter_to_selected`
    (config-ui/src/model_select_modal.rs). */
module Cleaners {
  import opened Prelude
  import opened Text
  import opened Documents

  // ---- prune -----------------------------------------------------------------------

  predicate IsEmpty(v: Json) {
    match v
    case Null => true
    case Str(text) => text == []
    case Obj(fields) => fields == map[]
    case Arr(items) => items == []
    case _ => false
  }

  function Prune(v: Json): Json {
    match v
    case Obj(fields) => Obj(map k | k in fields && !IsEmpty(Prune(fields[k])) :: Prune(fields[k]))
    case Arr(items) => Arr(PruneItems(items))
    case _ => v
  }

  function PruneItems(items: seq<Json>): seq<Json> {
    if items == [] then []
    else
      var first := Prune(items[0]);
      (if IsEmpty(first) then [] else [first]) + PruneItems(items[1..])
  }

  /** The values that are not worth keeping. */
  predicate IsNothing(v: Json) {
    v == Null || v == Str("") || v == Arr([]) || v == Obj(map[])
  }

  /** Nothing empty strictly below the root. */
  ghost predicate IsPruned(v: Json) {
    match v
    case Obj(fields) => forall k :: k in fields ==> !IsNothing(fields[k]) && IsPruned(fields[k])
    case Arr(items) => forall i :: 0 <= i < |items| ==> !IsNothing(items[i]) && IsPruned(items[i])
    case _ => true
  }

  /** Pruning reaches the normal form. */
  lemma {:induction false} PruneNormalises(v: Json)
    ensures IsPruned(Prune(v))
    decreases v, 0
  {
    match v {
      case Obj(fields) =>
        forall k | k in fields ensures IsPruned(Prune(fields[k])) {
          PruneNormalises(fields[k]);
        }
      case Arr(items) =>
        PruneItemsNormalises(items);
      case _ =>
    }
  }

  lemma {:induction false} PruneItemsNormalises(items: seq<Json>)
    ensures forall i :: 0 <= i < |PruneItems(items)| ==> !IsNothing(PruneItems(items)[i]) && IsPruned(PruneItems(items)[i])
    decreases items
  {
    if items != [] {
      PruneNormalises(items[0]);
      PruneItemsNormalises(items[1..]);
    }
  }

  /** And changes nothing that is already in it. */
  lemma {:induction false} PrunedIsFixed(v: Json)
    requires IsPruned(v)
    ensures Prune(v) == v
    decreases v, 0
  {
    match v {
      case Obj(fields) =>
        forall k | k in fields ensures Prune(fields[k]) == fields[k] {
          PrunedIsFixed(fields[k]);
        }
        assert Prune(v).fields == fields;
      case Arr(items) =>
        PrunedItemsAreFixed(items);
      case _ =>
    }
  }

  lemma {:induction false} PrunedItemsAreFixed(items: seq<Json>)
    requires forall i :: 0 <= i < |items| ==> !IsNothing(items[i]) && IsPruned(items[i])
    ensures PruneItems(items) == items
    decreases items
  {
    if items != [] {
      PrunedIsFixed(items[0]);
      PrunedItemsAreFixed(items[1..]);
      assert items == [items[0]] + items[1..];
    }
  }

  lemma PruneTwice(v: Json)
    ensures Prune(Prune(v)) == Prune(v)
  {
    PruneNormalises(v);
    PrunedIsFixed(Prune(v));
  }

  /** The non-empty scalars of a document in reading order: array order, sorted keys. */
  ghost function Scalars(v: Json): seq<Json>
    decreases v, 1
  {
    match v
    case Obj(fields) => ScalarsUnder(v, SortedKeys(fields.Keys))
    case Arr(items) => ScalarsOfItems(items)
    case _ => if IsNothing(v) then [] else [v]
  }

  ghost function ScalarsOfItems(items: seq<Json>): seq<Json>
    decreases items
  {
    if items == [] then [] else Scalars(items[0]) + ScalarsOfItems(items[1..])
  }

  ghost function ScalarsUnder(v: Json, keys: seq<string>): seq<Json>
    requires v.Obj? && forall k :: k in keys ==> k in v.fields
    decreases v, 0, |keys|
  {
    if keys == [] then [] else Scalars(v.fields[keys[0]]) + ScalarsUnder(v, keys[1..])
  }

  lemma EmptyHasNoScalars(v: Json)
    requires IsEmpty(v)
    ensures Scalars(v) == []
  {
  }

  /** Pruning drops no non-empty scalar and keeps their order. */
  lemma {:induction false} PruneKeepsScalars(v: Json)
    ensures Scalars(Prune(v)) == Scalars(v)
    decreases v, 1
  {
    match v {
      case Obj(fields) =>
        forall k | k in fields ensures Scalars(Prune(fields[k])) == Scalars(fields[k]) {
          PruneKeepsScalars(fields[k]);
        }
        PruneKeepsScalarsUnder(v, fields.Keys, Prune(v).fields.Keys);
      case Arr(items) =>
        PruneKeepsItemScalars(items);
      case _ =>
    }
  }

  lemma {:induction false} PruneKeepsItemScalars(items: seq<Json>)
    ensures ScalarsOfItems(PruneItems(items)) == ScalarsOfItems(items)
    decreases items
  {
    if items != [] {
      PruneKeepsScalars(items[0]);
      PruneKeepsItemScalars(items[1..]);
      var first, rest := Prune(items[0]), PruneItems(items[1..]);
      if IsEmpty(first) {
        EmptyHasNoScalars(first);
        assert [] + rest == rest;
      } else {
        assert ([first] + rest)[1..] == rest;
      }
    }
  }

  lemma {:induction false} PruneKeepsScalarsUnder(v: Json, keys: set<string>, kept: set<string>)
    requires v.Obj? && kept <= keys <= v.fields.Keys
    requires forall k :: k in keys ==> (k in kept <==> k in Prune(v).fields)
    requires forall k :: k in v.fields ==> Scalars(Prune(v.fields[k])) == Scalars(v.fields[k])
    ensures ScalarsUnder(Prune(v), SortedKeys(kept)) == ScalarsUnder(v, SortedKeys(keys))
    decreases |keys|
  {
    if keys != {} {
      var k := Least(keys);
      SortedKeysFrom(keys, k);
      PruneKeepsScalarsUnder(v, keys - {k}, kept - {k});
      if k in kept {
        SortedKeysFrom(kept, k);
        FirstScalars(Prune(v), k, SortedKeys(kept - {k}));
      } else {
        assert kept - {k} == kept;
        EmptyHasNoScalars(Prune(v.fields[k]));
      }
      FirstScalars(v, k, SortedKeys(keys - {k}));
    } else {
      assert kept == {};
    }
  }

  lemma FirstScalars(v: Json, k: string, keys: seq<string>)
    requires v.Obj? && k in v.fields && forall key :: key in keys ==> key in v.fields
    ensures ScalarsUnder(v, [k] + keys) == Scalars(v.fields[k]) + ScalarsUnder(v, keys)
  {
    assert ([k] + keys)[1..] == keys;
  }

  /** A document prunes to something empty exactly when it holds no non-empty scalar. */
  lemma PrunedAway(v: Json)
    ensures IsEmpty(Prune(v)) <==> Scalars(v) == []
  {
    PruneKeepsScalars(v);
    PruneNormalises(v);
    if Scalars(v) == [] {
      PrunedHasScalars(Prune(v));
    } else if IsEmpty(Prune(v)) {
      EmptyHasNoScalars(Prune(v));
    }
  }

  lemma {:induction false} PrunedHasScalars(v: Json)
    requires IsPruned(v) && Scalars(v) == []
    ensures IsEmpty(v)
    decreases v
  {
    match v {
      case Obj(fields) =>
        if fields != map[] {
          var k := Least(fields.Keys);
          SortedKeysFrom(fields.Keys, k);
          FirstScalars(v, k, SortedKeys(fields.Keys - {k}));
          PrunedHasScalars(fields[k]);
        }
      case Arr(items) =>
        if items != [] {
          PrunedHasScalars(items[0]);
        }
      case _ =>
    }
  }

  /** What pruning leaves of a container: exactly the children that hold a non-empty scalar,
      each pruned itself, under their old keys or in their old order; a scalar stays. */
  lemma PruneLeaves(v: Json)
    ensures !v.Obj? && !v.Arr? ==> Prune(v) == v
    ensures v.Obj? ==> Prune(v).Obj? &&
                       forall k :: Child(Some(Prune(v)), Key(k)) ==
                                   if k in v.fields && Scalars(v.fields[k]) != [] then Some(Prune(v.fields[k])) else None
    ensures v.Arr? ==> Prune(v).Arr? && IsFiltered(v.items, Prune(v).items)
  {
    if v.Obj? {
      forall k | k in v.fields ensures IsEmpty(Prune(v.fields[k])) <==> Scalars(v.fields[k]) == [] {
        PrunedAway(v.fields[k]);
      }
    } else if v.Arr? {
      ItemsFiltered(v.items);
    }
  }

  /** `kept` is what is left of `items`, one by one. */
  ghost predicate IsFiltered(items: seq<Json>, kept: seq<Json>)
    decreases |items|
  {
    if items == [] then kept == []
    else if Scalars(items[0]) == [] then IsFiltered(items[1..], kept)
    else kept != [] && kept[0] == Prune(items[0]) && IsFiltered(items[1..], kept[1..])
  }

  lemma {:induction false} ItemsFiltered(items: seq<Json>)
    ensures IsFiltered(items, PruneItems(items))
    decreases |items|
  {
    if items != [] {
      PrunedAway(items[0]);
      ItemsFiltered(items[1..]);
      var first, rest := Prune(items[0]), PruneItems(items[1..]);
      if IsEmpty(first) {
        assert [] + rest == rest;
      } else {
        assert ([first] + rest)[1..] == rest;
      }
    }
  }

  // ---- strip_defs_refs ---------------------------------------------------------------

  const REF: string := "$ref"
  const DEFS: string := "$defs"
  const REQUIRED: string := "required"

  predicate IsInternalRef(fields: map<string, Json>) {
    REF in fields && fields[REF].Str? && "#/" <= fields[REF].text
  }

  function Strip(v: Json): Json {
    match v
    case Obj(fields) =>
      if IsInternalRef(fields) then EMPTY_OBJECT
      else Obj(map k | k in fields && k != DEFS && k != REQUIRED :: Strip(fields[k]))
    case Arr(items) => Arr(seq(|items|, i requires 0 <= i < |items| => Strip(items[i])))
    case _ => v
  }

  /** The object refers to a place in its own document. */
  predicate PointsInside(fields: map<string, Json>) {
    "$ref" in fields && fields["$ref"].Str? && |fields["$ref"].text| >= 2
    && fields["$ref"].text[0] == '#' && fields["$ref"].text[1] == '/'
  }

  lemma InternalRefs(fields: map<string, Json>)
    ensures IsInternalRef(fields) <==> PointsInside(fields)
  {
  }

  /** No internal reference, no definitions and no required list at any depth. */
  ghost predicate IsStripped(v: Json) {
    match v
    case Obj(fields) =>
      && !PointsInside(fields) && "$defs" !in fields && "required" !in fields
      && forall k :: k in fields ==> IsStripped(fields[k])
    case Arr(items) => forall i :: 0 <= i < |items| ==> IsStripped(items[i])
    case _ => true
  }

  lemma {:induction false} StripStrips(v: Json)
    ensures IsStripped(Strip(v))
    decreases v
  {
    match v {
      case Obj(fields) =>
        if !IsInternalRef(fields) {
          forall k | k in fields ensures IsStripped(Strip(fields[k])) {
            StripStrips(fields[k]);
          }
          var stripped := Strip(v).fields;
          if REF in stripped {
            assert stripped[REF] == Strip(fields[REF]);
          }
        }
      case Arr(items) =>
        forall i | 0 <= i < |items| ensures IsStripped(Strip(items[i])) {
          StripStrips(items[i]);
        }
      case _ =>
    }
  }

  lemma {:induction false} StrippedIsFixed(v: Json)
    requires IsStripped(v)
    ensures Strip(v) == v
    decreases v
  {
    match v {
      case Obj(fields) =>
        forall k | k in fields ensures Strip(fields[k]) == fields[k] {
          StrippedIsFixed(fields[k]);
        }
        assert Strip(v).fields == fields;
      case Arr(items) =>
        forall i | 0 <= i < |items| ensures Strip(items[i]) == items[i] {
          StrippedIsFixed(items[i]);
        }
        assert Strip(v).items == items;
      case _ =>
    }
  }

  lemma StripTwice(v: Json)
    ensures Strip(Strip(v)) == Strip(v)
  {
    StripStrips(v);
    StrippedIsFixed(Strip(v));
  }

  /** A path that stripping cuts: it goes through definitions or a required list, or below
      an internal reference. */
  predicate IsCut(v: Option<Json>, q: seq<Slot>)
    decreases |q|
  {
    q != [] && v.Some? &&
    (|| (v.value.Obj? && (PointsInside(v.value.fields) || q[0] == Key("$defs") || q[0] == Key("required")))
     || IsCut(Child(v, q[0]), q[1..]))
  }

  /** And nothing else is taken away: at every other path the stripped document holds what
      was there, itself stripped. */
  lemma {:induction false} StripAt(v: Json, q: seq<Slot>)
    ensures var was := Get(Some(v), q);
            Get(Some(Strip(v)), q) == if IsCut(Some(v), q) || was.None? then None else Some(Strip(was.value))
    decreases |q|
  {
    if q != [] {
      if v.Obj? {
        InternalRefs(v.fields);
      }
      StripChild(v, q[0]);
      var child := Child(Some(v), q[0]);
      if child.Some? {
        StripAt(child.value, q[1..]);
      }
      GetMissing(q[1..]);
    }
  }

  lemma StripChild(v: Json, slot: Slot)
    ensures var child := Child(Some(v), slot);
            Child(Some(Strip(v)), slot) ==
            if child.None? || (v.Obj? && (PointsInside(v.fields) || slot == Key("$defs") || slot == Key("required"))) then None
            else Some(Strip(child.value))
  {
    if v.Obj? {
      InternalRefs(v.fields);
    }
  }

  // ---- filter_to_selected -------------------------------------------------------------

  datatype GroupName = GroupName(name: string, displayName: string)

  datatype ModelNode = Model(id: string) | Group(group: GroupName, children: seq<ModelNode>)

  function FilterToSelected(node: ModelNode, selected: set<string>): Option<ModelNode>
    decreases node, 0
  {
    match node
    case Model(id) => if id in selected then Some(node) else None
    case Group(group, children) =>
      var kept := FilterAll(children, selected);
      if kept == [] then None else Some(Group(group, kept))
  }

  function FilterAll(nodes: seq<ModelNode>, selected: set<string>): seq<ModelNode>
    decreases nodes
  {
    if nodes == [] then []
    else
      var first := FilterToSelected(nodes[0], selected);
      (if first.Some? then [first.value] else []) + FilterAll(nodes[1..], selected)
  }

  /** A model and the groups it is in, outermost first. */
  datatype Leaf = Leaf(groups: seq<GroupName>, id: string)

  /** The models of a tree from left to right, each with its groups. */
  function Leaves(node: ModelNode, groups: seq<GroupName>): seq<Leaf>
    decreases node, 0
  {
    match node
    case Model(id) => [Leaf(groups, id)]
    case Group(group, children) => LeavesOfAll(children, groups + [group])
  }

  function LeavesOfAll(nodes: seq<ModelNode>, groups: seq<GroupName>): seq<Leaf>
    decreases nodes
  {
    if nodes == [] then [] else Leaves(nodes[0], groups) + LeavesOfAll(nodes[1..], groups)
  }

  function Selected(leaves: seq<Leaf>, selected: set<string>): seq<Leaf> {
    if leaves == [] then []
    else (if leaves[0].id in selected then [leaves[0]] else []) + Selected(leaves[1..], selected)
  }

  ghost predicate NoEmptyGroup(node: ModelNode) {
    node.Group? ==> node.children != [] && forall c :: c in node.children ==> NoEmptyGroup(c)
  }

  lemma {:induction false} SelectedAppend(a: seq<Leaf>, b: seq<Leaf>, selected: set<string>)
    ensures Selected(a + b, selected) == Selected(a, selected) + Selected(b, selected)
    decreases |a|
  {
    if a == [] {
      assert a + b == b;
    } else {
      assert (a + b)[1..] == a[1..] + b;
      SelectedAppend(a[1..], b, selected);
    }
  }

  /** The filtered tree lists exactly the selected models, in order and each in its old
      groups, without an empty group; it is absent exactly when nothing in it is selected. */
  lemma {:induction false} FilterKeepsSelected(node: ModelNode, selected: set<string>, groups: seq<GroupName>)
    ensures var kept := FilterToSelected(node, selected);
            && (kept.None? <==> Selected(Leaves(node, groups), selected) == [])
            && (kept.Some? ==> Leaves(kept.value, groups) == Selected(Leaves(node, groups), selected) && NoEmptyGroup(kept.value))
    decreases node, 0
  {
    if node.Group? {
      FilterAllKeepsSelected(node.children, selected, groups + [node.group]);
    }
  }

  lemma {:induction false} FilterAllKeepsSelected(nodes: seq<ModelNode>, selected: set<string>, groups: seq<GroupName>)
    ensures LeavesOfAll(FilterAll(nodes, selected), groups) == Selected(LeavesOfAll(nodes, groups), selected)
    ensures FilterAll(nodes, selected) == [] <==> Selected(LeavesOfAll(nodes, groups), selected) == []
    ensures forall n :: n in FilterAll(nodes, selected) ==> NoEmptyGroup(n)
    decreases nodes
  {
    if nodes != [] {
      FilterKeepsSelected(nodes[0], selected, groups);
      FilterAllKeepsSelected(nodes[1..], selected, groups);
      SelectedAppend(Leaves(nodes[0], groups), LeavesOfAll(nodes[1..], groups), selected);
      var first, rest := FilterToSelected(nodes[0], selected), FilterAll(nodes[1..], selected);
      if first.Some? {
        assert ([first.value] + rest)[1..] == rest;
      } else {
        assert [] + rest == rest;
      }
    }
  }
}
