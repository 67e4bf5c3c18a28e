/** What every run of edits keeps. The form document is determined by the saved
    baseline and the current field values alone: no edit order, no orphan parent
    object and no stray write can be seen in it. */
module EditorRuns {
  import opened Prelude
  import opened Documents
  import opened ModalPaths
  import opened EditorPaths

  /** The slot paths of the fields the editor shows. */
  type Fields = set<seq<Slot>>

  /** The fields below one slot, as seen from there. */
  function Under(fields: Fields, slot: Slot): Fields {
    set p | p in fields && p != [] && p[0] == slot :: p[1..]
  }

  predicate PrefixFree(fields: Fields) {
    forall p, q :: p in fields && q in fields && p != q ==> Diverge(p, q)
  }

  /** No field is a prefix of another, every field ends in a key, and every field
      path fits the saved document. A lone empty path stands for "we are at a field". */
  predicate WellFormed(fields: Fields, saved: Option<Json>) {
    && PrefixFree(fields)
    && forall p :: p in fields ==> (p == [] || EndsInKey(p)) && Fits(saved, p)
  }

  lemma UnderMember(fields: Fields, slot: Slot, rest: seq<Slot>)
    ensures rest in Under(fields, slot) <==> [slot] + rest in fields
  {
    if [slot] + rest in fields {
      assert ([slot] + rest)[0] == slot && ([slot] + rest)[1..] == rest;
    }
    if rest in Under(fields, slot) {
      var p :| p in fields && p != [] && p[0] == slot && p[1..] == rest;
      assert p == [slot] + rest;
    }
  }

  lemma UnderWellFormed(fields: Fields, slot: Slot, saved: Option<Json>)
    requires WellFormed(fields, saved)
    ensures WellFormed(Under(fields, slot), Child(saved, slot))
  {
    forall p, q | p in Under(fields, slot) && q in Under(fields, slot) && p != q
      ensures Diverge(p, q)
    {
      UnderMember(fields, slot, p);
      UnderMember(fields, slot, q);
      assert ([slot] + p)[1..] == p && ([slot] + q)[1..] == q;
      assert Diverge([slot] + p, [slot] + q);
    }
    forall p | p in Under(fields, slot)
      ensures (p == [] || EndsInKey(p)) && Fits(Child(saved, slot), p)
    {
      UnderMember(fields, slot, p);
      assert ([slot] + p)[1..] == p;
      assert Fits(saved, [slot] + p);
      if p != [] {
        assert ([slot] + p)[|p|] == p[|p| - 1];
      }
    }
  }

  /** Some field of the family is a key right here. */
  ghost predicate HasKeyHere(fields: Fields) {
    exists k :: [Key(k)] in fields
  }

  /** The run invariant, from one node down. At a field anything goes; off the
      fields the document is the saved one; in between it is a container of the
      saved kind, and one the saved document lacks is a non-empty object, unless a
      field right below it is `bare`: removed without cleaning up after. */
  ghost predicate Tracks(fields: Fields, doc: Json, saved: Option<Json>, bare: Fields)
    decreases doc
  {
    if [] in fields then
      true
    else if fields == {} then
      saved == Some(doc)
    else
      match doc
      case Obj(now) =>
        && (if saved.None? then now != map[] || HasKeyHere(bare) else saved.value.Obj?)
        && (forall k :: k in now ==> Tracks(Under(fields, Key(k)), now[k], Child(saved, Key(k)), Under(bare, Key(k))))
        && (saved.Some? ==> forall k :: k in saved.value.fields && k !in now ==> [Key(k)] in fields)
      case Arr(now) =>
        && saved.Some? && saved.value.Arr? && |saved.value.items| == |now|
        && forall i :: 0 <= i < |now| ==> Tracks(Under(fields, Index(i)), now[i], Some(saved.value.items[i]), Under(bare, Index(i)))
      case _ => false
  }

  /** The saved document itself satisfies the invariant. */
  lemma {:induction false} StartTracks(fields: Fields, doc: Json, bare: Fields)
    requires WellFormed(fields, Some(doc))
    ensures Tracks(fields, doc, Some(doc), bare)
    decreases doc
  {
    if [] !in fields && fields != {} {
      var p :| p in fields;
      assert Fits(Some(doc), p) && p != [];
      match doc {
        case Obj(now) =>
          forall k | k in now ensures Tracks(Under(fields, Key(k)), now[k], Child(Some(doc), Key(k)), Under(bare, Key(k))) {
            UnderWellFormed(fields, Key(k), Some(doc));
            StartTracks(Under(fields, Key(k)), now[k], Under(bare, Key(k)));
          }
        case Arr(now) =>
          forall i | 0 <= i < |now| ensures Tracks(Under(fields, Index(i)), now[i], Some(now[i]), Under(bare, Index(i))) {
            UnderWellFormed(fields, Index(i), Some(doc));
            StartTracks(Under(fields, Index(i)), now[i], Under(bare, Index(i)));
          }
        case _ =>
      }
    }
  }

  /** One step towards a field: what the invariant says about the child there. */
  lemma StepTowards(fields: Fields, doc: Json, saved: Option<Json>, bare: Fields, p: seq<Slot>)
    requires WellFormed(fields, saved) && Tracks(fields, doc, saved, bare)
    requires p in fields && p != []
    ensures [] !in fields && p[1..] in Under(fields, p[0])
    ensures WellFormed(Under(fields, p[0]), Child(saved, p[0]))
    ensures if p[0].Key? then doc.Obj? else doc.Arr? && Child(Some(doc), p[0]).Some?
    ensures var child := Child(Some(doc), p[0]);
            if child.Some? then Tracks(Under(fields, p[0]), child.value, Child(saved, p[0]), Under(bare, p[0]))
            else Child(saved, p[0]).None? || |p| == 1
  {
    NoFieldHere(fields, p);
    UnderMember(fields, p[0], p[1..]);
    assert [p[0]] + p[1..] == p;
    UnderWellFormed(fields, p[0], saved);
    assert Fits(saved, p);
    if Child(Some(doc), p[0]).None? && Child(saved, p[0]).Some? {
      assert [p[0]] in fields;
      if |p| > 1 {
        assert [p[0]][1..] == [];
        assert !Diverge([p[0]], p);
      }
    }
  }

  /** A well-formed family with a non-empty path is not at a field. */
  lemma NoFieldHere(fields: Fields, p: seq<Slot>)
    requires PrefixFree(fields) && p in fields && p != []
    ensures [] !in fields
  {
    assert !Diverge([], p);
  }

  /** Under the invariant every field path also fits the form document. */
  lemma {:induction false} TracksFits(fields: Fields, doc: Json, saved: Option<Json>, bare: Fields, p: seq<Slot>)
    requires WellFormed(fields, saved) && Tracks(fields, doc, saved, bare) && p in fields
    ensures Fits(Some(doc), p)
    decreases |p|
  {
    if p != [] {
      StepTowards(fields, doc, saved, bare, p);
      var child := Child(Some(doc), p[0]);
      if child.Some? {
        TracksFits(Under(fields, p[0]), child.value, Child(saved, p[0]), Under(bare, p[0]), p[1..]);
      }
    }
  }

  // ---- one node with one child changed -----------------------------------------

  /** Two families that differ at most below one slot. */
  ghost predicate SameElsewhere(one: Fields, other: Fields, slot: Slot) {
    forall s: Slot :: s != slot ==> Under(one, s) == Under(other, s)
  }

  lemma UnderWithout(bare: Fields, p: seq<Slot>)
    requires p != []
    ensures Under(bare - {p}, p[0]) == Under(bare, p[0]) - {p[1..]}
    ensures SameElsewhere(bare, bare - {p}, p[0])
  {
    assert [p[0]] + p[1..] == p;
    forall rest ensures rest in Under(bare - {p}, p[0]) <==> rest in Under(bare, p[0]) - {p[1..]} {
      UnderMember(bare - {p}, p[0], rest);
      UnderMember(bare, p[0], rest);
      assert ([p[0]] + rest)[1..] == rest;
    }
  }

  lemma UnderWith(bare: Fields, p: seq<Slot>)
    requires p != []
    ensures Under(bare + {p}, p[0]) == Under(bare, p[0]) + {p[1..]}
    ensures SameElsewhere(bare, bare + {p}, p[0])
  {
    assert [p[0]] + p[1..] == p;
    forall rest ensures rest in Under(bare + {p}, p[0]) <==> rest in Under(bare, p[0]) + {p[1..]} {
      UnderMember(bare + {p}, p[0], rest);
      UnderMember(bare, p[0], rest);
      assert ([p[0]] + rest)[1..] == rest;
    }
  }

  /** Replacing one child of a tracked container by a tracked one. */
  lemma TracksWithField(fields: Fields, doc: Json, saved: Option<Json>, bare: Fields, after: Fields, p: seq<Slot>, value: Json)
    requires WellFormed(fields, saved) && Tracks(fields, doc, saved, bare)
    requires p in fields && p != [] && p[0].Key? && SameElsewhere(bare, after, p[0])
    requires Tracks(Under(fields, p[0]), value, Child(saved, p[0]), Under(after, p[0]))
    ensures doc.Obj? && Tracks(fields, Obj(doc.fields[p[0].name := value]), saved, after)
  {
    StepTowards(fields, doc, saved, bare, p);
    var now := doc.fields[p[0].name := value];
    forall k | k in now ensures Tracks(Under(fields, Key(k)), now[k], Child(saved, Key(k)), Under(after, Key(k))) {
      if k != p[0].name {
        assert now[k] == doc.fields[k];
      }
    }
    assert p[0].name in now;
  }

  lemma TracksWithElement(fields: Fields, doc: Json, saved: Option<Json>, bare: Fields, after: Fields, p: seq<Slot>, value: Json)
    requires WellFormed(fields, saved) && Tracks(fields, doc, saved, bare)
    requires p in fields && p != [] && p[0].Index? && SameElsewhere(bare, after, p[0])
    requires Tracks(Under(fields, p[0]), value, Child(saved, p[0]), Under(after, p[0]))
    ensures doc.Arr? && p[0].at < |doc.items| && Tracks(fields, Arr(doc.items[p[0].at := value]), saved, after)
  {
    StepTowards(fields, doc, saved, bare, p);
    var now := doc.items[p[0].at := value];
    forall i | 0 <= i < |now|
      ensures Tracks(Under(fields, Index(i)), now[i], Some(saved.value.items[i]), Under(after, Index(i)))
    {
      if i != p[0].at {
        assert now[i] == doc.items[i];
      }
    }
  }

  lemma TracksWithChild(fields: Fields, doc: Json, saved: Option<Json>, bare: Fields, after: Fields, p: seq<Slot>, value: Json)
    requires WellFormed(fields, saved) && Tracks(fields, doc, saved, bare)
    requires p in fields && p != [] && SameElsewhere(bare, after, p[0])
    requires Tracks(Under(fields, p[0]), value, Child(saved, p[0]), Under(after, p[0]))
    ensures Tracks(fields, WithSlot(doc, p[0], value), saved, after)
  {
    if p[0].Key? {
      TracksWithField(fields, doc, saved, bare, after, p, value);
    } else {
      TracksWithElement(fields, doc, saved, bare, after, p, value);
    }
  }

  /** Dropping one key, unless that leaves an object the saved document lacks empty. */
  lemma {:induction false} TracksWithoutKey(fields: Fields, doc: Json, saved: Option<Json>, bare: Fields, after: Fields, k: string)
    requires Tracks(fields, doc, saved, bare)
    requires [] !in fields && fields != {} && doc.Obj? && SameElsewhere(bare, after, Key(k))
    requires [Key(k)] in fields || Child(saved, Key(k)).None?
    ensures || Tracks(fields, Obj(doc.fields - {k}), saved, after)
            || (!HasKeyHere(after) && saved.None? && doc.fields - {k} == map[])
  {
    var now := doc.fields - {k};
    forall other | other in now
      ensures Tracks(Under(fields, Key(other)), now[other], Child(saved, Key(other)), Under(after, Key(other)))
    {
      assert now[other] == doc.fields[other] && Under(after, Key(other)) == Under(bare, Key(other));
    }
    if saved.Some? {
      forall other | other in saved.value.fields && other !in now ensures [Key(other)] in fields {
        assert other != k ==> other !in doc.fields;
      }
    }
  }

  /** Nothing below a slot: the family may change there. */
  lemma TracksAbsent(fields: Fields, doc: Json, saved: Option<Json>, bare: Fields, after: Fields, slot: Slot)
    requires Tracks(fields, doc, saved, bare) && Child(Some(doc), slot).None? && SameElsewhere(bare, after, slot)
    requires HasKeyHere(bare) ==> HasKeyHere(after)
    ensures Tracks(fields, doc, saved, after)
  {
    if [] !in fields && fields != {} {
      match doc
      case Obj(now) =>
        assert forall k :: k in now ==> Key(k) != slot;
      case Arr(now) =>
        assert forall i :: 0 <= i < |now| ==> Index(i) != slot;
      case _ =>
    }
  }

  lemma LongPathsAreNotHere(bare: Fields, p: seq<Slot>)
    requires |p| > 1
    ensures HasKeyHere(bare) ==> HasKeyHere(bare - {p}) && HasKeyHere(bare + {p})
  {
    if k :| [Key(k)] in bare {
      assert [Key(k)] in bare - {p} && [Key(k)] in bare + {p};
    }
  }

  // ---- setting a field -------------------------------------------------------

  /** A field set where nothing existed yet creates only non-empty objects. */
  lemma {:induction false} PutFreshTracks(fields: Fields, bare: Fields, p: seq<Slot>, value: Json)
    requires WellFormed(fields, None) && p in fields
    ensures Tracks(fields, Put(Null, p, value), None, bare)
    decreases |p|
  {
    if p != [] {
      NoFieldHere(fields, p);
      assert Fits(None, p) && p[0].Key?;
      UnderMember(fields, p[0], p[1..]);
      assert [p[0]] + p[1..] == p;
      UnderWellFormed(fields, p[0], None);
      PutFreshTracks(Under(fields, p[0]), Under(bare, p[0]), p[1..], value);
      var inner := Put(Null, p[1..], value);
      assert Put(Null, p, value) == Obj(map[][p[0].name := inner]);
      assert p[0].name in Put(Null, p, value).fields;
    }
  }

  /** Setting a field keeps the invariant; the field is bare no more. */
  lemma {:induction false} PutTracks(fields: Fields, doc: Json, saved: Option<Json>, bare: Fields, p: seq<Slot>, value: Json)
    requires WellFormed(fields, saved) && Tracks(fields, doc, saved, bare) && p in fields
    ensures Tracks(fields, Put(doc, p, value), saved, bare - {p})
    decreases |p|
  {
    if p != [] {
      StepTowards(fields, doc, saved, bare, p);
      UnderWithout(bare, p);
      var child := Child(Some(doc), p[0]);
      if child.Some? {
        PutTracks(Under(fields, p[0]), child.value, Child(saved, p[0]), Under(bare, p[0]), p[1..], value);
      } else if |p| > 1 {
        PutFreshTracks(Under(fields, p[0]), Under(bare - {p}, p[0]), p[1..], value);
      }
      TracksWithChild(fields, doc, saved, bare, bare - {p}, p, Put(OrNull(child), p[1..], value));
    }
  }

  // ---- clearing a field ------------------------------------------------------

  /** After a clear the invariant holds again and the field is not bare, except possibly
      at the top node itself, which may have become an empty object the saved document
      lacks; in that case the clear reports that it pruned its way up. */
  lemma {:induction false} ClearTracks(fields: Fields, doc: Json, saved: Option<Json>, bare: Fields, p: seq<Slot>)
    requires WellFormed(fields, saved) && Tracks(fields, doc, saved, bare) && p in fields && p != []
    ensures var (cleared, pruned) := ClearSlots(doc, saved, p);
            Tracks(fields, cleared, saved, bare - {p}) || (pruned && cleared == EMPTY_OBJECT && saved.None?)
    decreases |p|
  {
    StepTowards(fields, doc, saved, bare, p);
    UnderWithout(bare, p);
    if |p| == 1 {
      assert p == [p[0]] && EndsInKey(p);
      TracksWithoutKey(fields, doc, saved, bare, bare - {p}, p[0].name);
    } else {
      var child := Child(Some(doc), p[0]);
      if child.Some? {
        ClearTracks(Under(fields, p[0]), child.value, Child(saved, p[0]), Under(bare, p[0]), p[1..]);
        var (inner, pruned) := ClearSlots(child.value, Child(saved, p[0]), p[1..]);
        if pruned && inner == EMPTY_OBJECT && Child(saved, p[0]).None? {
          assert p[0].Key?;
          TracksWithoutKey(fields, doc, saved, bare, bare - {p}, p[0].name);
        } else {
          TracksWithChild(fields, doc, saved, bare, bare - {p}, p, inner);
          SameAsWithSlot(doc, p[0], inner);
        }
      } else {
        LongPathsAreNotHere(bare, p);
        TracksAbsent(fields, doc, saved, bare, bare - {p}, p[0]);
      }
    }
  }

  lemma SameAsWithSlot(doc: Json, slot: Slot, value: Json)
    requires Child(Some(doc), slot).Some?
    ensures WithChild(doc, slot, value) == WithSlot(doc, slot, value)
  {
  }

  /** A clear removes the field and moves nothing at a diverging path. */
  lemma {:induction false} ClearFrame(doc: Json, saved: Option<Json>, p: seq<Slot>, q: seq<Slot>)
    requires EndsInKey(p) && Fits(Some(doc), p) && Fits(saved, p)
    requires q == p || Diverge(p, q)
    ensures Get(Some(ClearSlots(doc, saved, p).0), q) == if q == p then None else Get(Some(doc), q)
    decreases |p|
  {
    if |p| == 1 {
      assert p == [p[0]];
      if q == p {
        GetMissing(q[1..]);
      }
    } else {
      var child := Child(Some(doc), p[0]);
      if child.None? {
        GetMissing(q[1..]);
      } else if q[0] == p[0] {
        ClearFrame(child.value, Child(saved, p[0]), p[1..], q[1..]);
        var (inner, pruned) := ClearSlots(child.value, Child(saved, p[0]), p[1..]);
        if pruned && inner == EMPTY_OBJECT && Child(saved, p[0]).None? {
          GetMissing(q[1..]);
          GetEmpty(q[1..]);
        }
      }
    }
  }

  /** A removal without cleanup keeps the invariant with the field added to the bare ones. */
  lemma {:induction false} DeleteTracks(fields: Fields, doc: Json, saved: Option<Json>, bare: Fields, p: seq<Slot>)
    requires WellFormed(fields, saved) && Tracks(fields, doc, saved, bare) && p in fields && p != []
    ensures Tracks(fields, Delete(doc, p), saved, bare + {p})
    decreases |p|
  {
    StepTowards(fields, doc, saved, bare, p);
    UnderWith(bare, p);
    if |p| == 1 {
      assert p == [p[0]] && EndsInKey(p) && [Key(p[0].name)] in bare + {p};
      TracksWithoutKey(fields, doc, saved, bare, bare + {p}, p[0].name);
    } else {
      var child := Child(Some(doc), p[0]);
      if child.Some? {
        DeleteTracks(Under(fields, p[0]), child.value, Child(saved, p[0]), Under(bare, p[0]), p[1..]);
        TracksWithChild(fields, doc, saved, bare, bare + {p}, p, Delete(child.value, p[1..]));
        SameAsWithSlot(doc, p[0], Delete(child.value, p[1..]));
      } else {
        LongPathsAreNotHere(bare, p);
        TracksAbsent(fields, doc, saved, bare, bare + {p}, p[0]);
      }
    }
  }

  lemma {:induction false} DeleteFrame(doc: Json, p: seq<Slot>, q: seq<Slot>)
    requires EndsInKey(p) && Fits(Some(doc), p)
    requires q == p || Diverge(p, q)
    ensures Get(Some(Delete(doc, p)), q) == if q == p then None else Get(Some(doc), q)
    decreases |p|
  {
    var child := Child(Some(doc), p[0]);
    if |p| == 1 {
      assert p == [p[0]];
      GetMissing(q[1..]);
    } else if child.None? {
      GetMissing(q[1..]);
    } else if q[0] == p[0] {
      DeleteFrame(child.value, p[1..], q[1..]);
    }
  }

  lemma GetEmpty(q: seq<Slot>)
    requires q != []
    ensures Get(Some(EMPTY_OBJECT), q) == None
  {
    GetMissing(q[1..]);
  }

  // ---- the document is determined by the field values -------------------------

  /** A tracked container the saved document lacks holds some field's value. */
  lemma {:induction false} HoldsAField(fields: Fields, doc: Json) returns (p: seq<Slot>)
    requires Tracks(fields, doc, None, {})
    ensures p in fields && Get(Some(doc), p).Some?
    decreases doc
  {
    if [] in fields {
      p := [];
    } else {
      assert !HasKeyHere({});
      var k :| k in doc.fields;
      UnderNothing(Key(k));
      var rest := HoldsAField(Under(fields, Key(k)), doc.fields[k]);
      UnderMember(fields, Key(k), rest);
      p := [Key(k)] + rest;
      assert p[1..] == rest;
    }
  }

  lemma UnderNothing(slot: Slot)
    ensures Under({}, slot) == {}
  {
  }

  ghost predicate SameFieldValues(fields: Fields, a: Option<Json>, b: Option<Json>) {
    forall p :: p in fields ==> Get(a, p) == Get(b, p)
  }

  lemma SameFieldValuesUnder(fields: Fields, a: Option<Json>, b: Option<Json>, slot: Slot)
    requires SameFieldValues(fields, a, b)
    ensures SameFieldValues(Under(fields, slot), Child(a, slot), Child(b, slot))
  {
    forall rest | rest in Under(fields, slot) ensures Get(Child(a, slot), rest) == Get(Child(b, slot), rest) {
      UnderMember(fields, slot, rest);
      assert ([slot] + rest)[1..] == rest;
      assert Get(a, [slot] + rest) == Get(b, [slot] + rest);
    }
  }

  lemma {:induction false} SameKeys(fields: Fields, a: Json, b: Json, saved: Option<Json>, k: string)
    requires Tracks(fields, a, saved, {}) && Tracks(fields, b, saved, {})
    requires [] !in fields && fields != {} && a.Obj? && b.Obj?
    requires SameFieldValues(fields, Some(a), Some(b)) && k in a.fields
    ensures k in b.fields
  {
    UnderNothing(Key(k));
    SameFieldValuesUnder(fields, Some(a), Some(b), Key(k));
    UnderMember(fields, Key(k), []);
    assert [Key(k)] + [] == [Key(k)];
    if k !in b.fields {
      if Child(saved, Key(k)).None? {
        var p := HoldsAField(Under(fields, Key(k)), a.fields[k]);
        GetMissing(p);
      }
    }
  }

  /** Two documents that satisfy the invariant and agree on every field are equal. */
  lemma {:induction false} Determined(fields: Fields, a: Json, b: Json, saved: Option<Json>)
    requires Tracks(fields, a, saved, {}) && Tracks(fields, b, saved, {})
    requires SameFieldValues(fields, Some(a), Some(b))
    ensures a == b
    decreases a
  {
    if [] in fields {
      assert Get(Some(a), []) == Get(Some(b), []);
    } else if fields != {} {
      match a {
        case Obj(now) =>
          forall k | k in now || k in b.fields ensures k in now && k in b.fields && now[k] == b.fields[k] {
            if k in now {
              SameKeys(fields, a, b, saved, k);
            } else {
              SameKeys(fields, b, a, saved, k);
            }
            UnderNothing(Key(k));
            SameFieldValuesUnder(fields, Some(a), Some(b), Key(k));
            Determined(Under(fields, Key(k)), now[k], b.fields[k], Child(saved, Key(k)));
          }
          assert now == b.fields;
        case Arr(now) =>
          forall i | 0 <= i < |now| ensures now[i] == b.items[i] {
            UnderNothing(Index(i));
            SameFieldValuesUnder(fields, Some(a), Some(b), Index(i));
            Determined(Under(fields, Index(i)), now[i], b.items[i], Some(saved.value.items[i]));
          }
        case _ =>
      }
    }
  }

  predicate OffFields(fields: Fields, q: seq<Slot>) {
    forall p :: p in fields ==> Diverge(p, q)
  }

  /** Everything off the field paths is as saved, present or absent. */
  lemma {:induction false} OffFieldsUnchanged(fields: Fields, doc: Json, saved: Option<Json>, bare: Fields, q: seq<Slot>)
    requires Tracks(fields, doc, saved, bare) && OffFields(fields, q)
    ensures Get(Some(doc), q) == Get(saved, q)
    decreases |q|
  {
    if fields != {} {
      var p :| p in fields;
      assert Diverge(p, q);
      assert [] !in fields by { assert !Diverge([], q); }
      var slot, child := q[0], Child(Some(doc), q[0]);
      forall rest | rest in Under(fields, slot) ensures Diverge(rest, q[1..]) {
        UnderMember(fields, slot, rest);
        assert ([slot] + rest)[1..] == rest;
        assert Diverge([slot] + rest, q);
      }
      if child.Some? {
        OffFieldsUnchanged(Under(fields, slot), child.value, Child(saved, slot), Under(bare, slot), q[1..]);
      } else {
        assert Child(saved, slot).None? by {
          assert [slot][1..] == [];
          assert !Diverge([slot], q);
        }
        GetMissing(q[1..]);
      }
    }
  }

  // ---- runs ------------------------------------------------------------------

  /** What the user can do to a field. The secret and key-hash inputs and the reset to
      default remove a field without cleaning up; all others clear it. */
  datatype Edit =
    | SetTo(path: Path, value: Json)
    | Clear(path: Path)
    | RemoveOnly(path: Path)
    | Revert(path: Path)

  /** One edit; None if the code would panic. */
  function Apply(edit: Edit, form: Json, baseline: Json): Option<Json> {
    match edit
    case SetTo(path, value) => SetAtPath(form, path, value)
    case Clear(path) => ClearField(form, baseline, path)
    case RemoveOnly(path) => RemoveAtPath(form, path)
    case Revert(path) => RevertField(form, baseline, path)
  }

  function Run(edits: seq<Edit>, form: Json, baseline: Json): Option<Json> {
    if edits == [] then
      Some(form)
    else
      var next := Apply(edits[0], form, baseline);
      if next.None? then None else Run(edits[1..], next.value, baseline)
  }

  /** The value the user means the edited field to have. */
  function Intended(edit: Edit, baseline: Json): Option<Json> {
    match edit
    case SetTo(_, value) => Some(value)
    case Clear(_) => None
    case RemoveOnly(_) => None
    case Revert(path) => Get(Some(baseline), SlotsOf(path))
  }

  /** The value the last edit of field `p` asked for, or `start` if there was none. */
  function LastIntended(edits: seq<Edit>, p: seq<Slot>, start: Option<Json>, baseline: Json): Option<Json> {
    if edits == [] then start
    else LastIntended(edits[1..], p,
                      if SlotsOf(edits[0].path) == p then Intended(edits[0], baseline) else start,
                      baseline)
  }

  predicate OnFields(edits: seq<Edit>, fields: Fields) {
    forall e :: e in edits ==> SlotsOf(e.path) in fields
  }

  predicate EditableFields(fields: Fields, baseline: Json) {
    WellFormed(fields, Some(baseline)) && [] !in fields
  }

  /** The field paths a caller hands over are raw strings; a clear on one of them
      is the top-down clear on its slots. */
  lemma ClearAgrees(form: Json, baseline: Json, path: Path)
    requires EndsInKey(SlotsOf(path)) && Fits(Some(form), SlotsOf(path)) && Fits(Some(baseline), SlotsOf(path))
    ensures ClearField(form, baseline, path) == Some(ClearSlots(form, Some(baseline), SlotsOf(path)).0)
  {
    var slots, n := SlotsOf(path), |path| - 1;
    RemoveAgrees(form, path);
    DeleteFits(form, slots);
    FitsPrefix(Some(Delete(form, slots)), slots, n);
    FitsPrefix(Some(baseline), slots, n);
    assert SlotsOf(path[..n]) == slots[..n];
    CleanupAgrees(Delete(form, slots), baseline, path[..n]);
    CleanupIsTopDown(form, Some(baseline), slots);
  }

  /** The fields left bare by one more edit. */
  function BareAfter(edit: Edit, bare: Fields): Fields {
    if edit.RemoveOnly? then bare + {SlotsOf(edit.path)} else bare - {SlotsOf(edit.path)}
  }

  /** The fields whose last edit removed them without cleaning up. */
  function LeftBare(edits: seq<Edit>, bare: Fields): Fields {
    if edits == [] then bare else LeftBare(edits[1..], BareAfter(edits[0], bare))
  }

  /** What one edit must do: succeed, keep the invariant, give its field the intended
      value and leave every other field alone. */
  ghost predicate IsExact(fields: Fields, edit: Edit, form: Json, baseline: Json, bare: Fields) {
    var after := Apply(edit, form, baseline);
    && after.Some? && Tracks(fields, after.value, Some(baseline), BareAfter(edit, bare))
    && forall p :: p in fields ==>
         Get(after, p) == if p == SlotsOf(edit.path) then Intended(edit, baseline) else Get(Some(form), p)
  }

  lemma SetIsExact(fields: Fields, edit: Edit, form: Json, baseline: Json, bare: Fields)
    requires EditableFields(fields, baseline) && Tracks(fields, form, Some(baseline), bare)
    requires SlotsOf(edit.path) in fields && Intended(edit, baseline).Some?
    ensures IsExact(fields, edit, form, baseline, bare)
  {
    var slots, wanted := SlotsOf(edit.path), Intended(edit, baseline).value;
    TracksFits(fields, form, Some(baseline), bare, slots);
    SetAgrees(Some(form), edit.path, wanted);
    PutTracks(fields, form, Some(baseline), bare, slots, wanted);
    PutGet(form, slots, wanted);
    forall p | p in fields && p != slots
      ensures Get(Some(Put(form, slots, wanted)), p) == Get(Some(form), p)
    {
      PutFrame(Some(form), slots, p, wanted);
    }
  }

  lemma ClearIsExact(fields: Fields, edit: Edit, form: Json, baseline: Json, bare: Fields)
    requires EditableFields(fields, baseline) && Tracks(fields, form, Some(baseline), bare)
    requires SlotsOf(edit.path) in fields && Intended(edit, baseline).None? && !edit.RemoveOnly?
    ensures IsExact(fields, edit, form, baseline, bare)
  {
    var slots := SlotsOf(edit.path);
    TracksFits(fields, form, Some(baseline), bare, slots);
    ClearAgrees(form, baseline, edit.path);
    ClearTracks(fields, form, Some(baseline), bare, slots);
    forall p | p in fields
      ensures Get(Some(ClearSlots(form, Some(baseline), slots).0), p) == if p == slots then None else Get(Some(form), p)
    {
      ClearFrame(form, Some(baseline), slots, p);
    }
  }

  lemma RemoveIsExact(fields: Fields, edit: Edit, form: Json, baseline: Json, bare: Fields)
    requires EditableFields(fields, baseline) && Tracks(fields, form, Some(baseline), bare)
    requires SlotsOf(edit.path) in fields && edit.RemoveOnly?
    ensures IsExact(fields, edit, form, baseline, bare)
  {
    var slots := SlotsOf(edit.path);
    TracksFits(fields, form, Some(baseline), bare, slots);
    RemoveAgrees(form, edit.path);
    DeleteTracks(fields, form, Some(baseline), bare, slots);
    forall p | p in fields
      ensures Get(Some(Delete(form, slots)), p) == if p == slots then None else Get(Some(form), p)
    {
      DeleteFrame(form, slots, p);
    }
  }

  /** Every edit of a field succeeds, keeps the invariant, gives that field the intended
      value and leaves every other field alone. */
  lemma EditKeepsInvariant(fields: Fields, edit: Edit, form: Json, baseline: Json, bare: Fields)
    requires EditableFields(fields, baseline) && Tracks(fields, form, Some(baseline), bare)
    requires SlotsOf(edit.path) in fields
    ensures IsExact(fields, edit, form, baseline, bare)
  {
    if Intended(edit, baseline).Some? {
      SetIsExact(fields, edit, form, baseline, bare);
    } else if edit.RemoveOnly? {
      RemoveIsExact(fields, edit, form, baseline, bare);
    } else {
      ClearIsExact(fields, edit, form, baseline, bare);
    }
  }

  lemma {:induction false} RunKeepsInvariant(fields: Fields, edits: seq<Edit>, form: Json, baseline: Json, bare: Fields)
    requires EditableFields(fields, baseline) && Tracks(fields, form, Some(baseline), bare) && OnFields(edits, fields)
    ensures Run(edits, form, baseline).Some?
    ensures Tracks(fields, Run(edits, form, baseline).value, Some(baseline), LeftBare(edits, bare))
    ensures forall p :: p in fields ==>
              Get(Run(edits, form, baseline), p) == LastIntended(edits, p, Get(Some(form), p), baseline)
    decreases |edits|
  {
    if edits != [] {
      assert edits[0] in edits;
      EditKeepsInvariant(fields, edits[0], form, baseline, bare);
      RunKeepsInvariant(fields, edits[1..], Apply(edits[0], form, baseline).value, baseline, BareAfter(edits[0], bare));
    }
  }

  /** The run ends with every removal cleaned up after: no field's last edit is a bare
      removal. Earlier ones do not matter. */
  predicate EndsTidy(edits: seq<Edit>) {
    LeftBare(edits, {}) == {}
  }

  /** Any run of edits from the saved document: no panic; every field holds what its
      last edit asked for; everything off the fields is as saved; and, if the run ends
      tidy, the editor is dirty exactly when some field differs from its saved value. */
  lemma RunIsExact(fields: Fields, edits: seq<Edit>, baseline: Json)
    requires EditableFields(fields, baseline) && OnFields(edits, fields)
    ensures Run(edits, baseline, baseline).Some?
    ensures var form := Run(edits, baseline, baseline);
            && (forall p :: p in fields ==>
                  Get(form, p) == LastIntended(edits, p, Get(Some(baseline), p), baseline))
            && (forall q :: OffFields(fields, q) ==> Get(form, q) == Get(Some(baseline), q))
            && (EndsTidy(edits) ==> (form == Some(baseline) <==> SameFieldValues(fields, form, Some(baseline))))
  {
    StartTracks(fields, baseline, {});
    RunKeepsInvariant(fields, edits, baseline, baseline, {});
    var form := Run(edits, baseline, baseline);
    forall q | OffFields(fields, q) ensures Get(form, q) == Get(Some(baseline), q) {
      OffFieldsUnchanged(fields, form.value, Some(baseline), LeftBare(edits, {}), q);
    }
    if EndsTidy(edits) && SameFieldValues(fields, form, Some(baseline)) {
      Determined(fields, form.value, baseline, Some(baseline));
    }
  }

  /** Edit order cannot be seen: two tidy runs that leave every field with the same last
      intent end in the same document. */
  lemma RunsWithSameIntentAgree(fields: Fields, first: seq<Edit>, second: seq<Edit>, baseline: Json)
    requires EditableFields(fields, baseline) && OnFields(first, fields) && OnFields(second, fields)
    requires EndsTidy(first) && EndsTidy(second)
    requires forall p :: p in fields ==>
               LastIntended(first, p, Get(Some(baseline), p), baseline)
               == LastIntended(second, p, Get(Some(baseline), p), baseline)
    ensures Run(first, baseline, baseline) == Run(second, baseline, baseline)
  {
    StartTracks(fields, baseline, {});
    RunKeepsInvariant(fields, first, baseline, baseline, {});
    RunKeepsInvariant(fields, second, baseline, baseline, {});
    Determined(fields, Run(first, baseline, baseline).value, Run(second, baseline, baseline).value, Some(baseline));
  }

  /** After any edits, bare removals included, reverting every field, in any order and
      with any repetition, gives back the saved document exactly. */
  lemma RevertAllRestores(fields: Fields, edits: seq<Edit>, reverts: seq<Edit>, baseline: Json)
    requires EditableFields(fields, baseline) && OnFields(edits, fields) && OnFields(reverts, fields)
    requires forall e :: e in reverts ==> e.Revert?
    requires forall p :: p in fields ==> exists e :: e in reverts && SlotsOf(e.path) == p
    ensures Run(edits + reverts, baseline, baseline) == Some(baseline)
  {
    RunIsExact(fields, edits + reverts, baseline);
    forall p | p in fields
      ensures LastIntended(edits + reverts, p, Get(Some(baseline), p), baseline) == Get(Some(baseline), p)
    {
      LastIntendedAppend(edits, reverts, p, Get(Some(baseline), p), baseline);
      RevertsIntendSaved(reverts, p, LastIntended(edits, p, Get(Some(baseline), p), baseline), baseline);
    }
    BareAreFields(edits, fields, {});
    LeftBareAppend(edits, reverts, {});
    RevertsTidyUp(reverts, LeftBare(edits, {}));
  }

  lemma {:induction false} BareAreFields(edits: seq<Edit>, fields: Fields, bare: Fields)
    requires OnFields(edits, fields) && bare <= fields
    ensures LeftBare(edits, bare) <= fields
    decreases |edits|
  {
    if edits != [] {
      assert edits[0] in edits;
      BareAreFields(edits[1..], fields, BareAfter(edits[0], bare));
    }
  }

  lemma {:induction false} LeftBareAppend(edits: seq<Edit>, more: seq<Edit>, bare: Fields)
    ensures LeftBare(edits + more, bare) == LeftBare(more, LeftBare(edits, bare))
    decreases |edits|
  {
    if edits == [] {
      assert edits + more == more;
    } else {
      assert (edits + more)[1..] == edits[1..] + more;
      LeftBareAppend(edits[1..], more, BareAfter(edits[0], bare));
    }
  }

  lemma {:induction false} RevertsTidyUp(reverts: seq<Edit>, bare: Fields)
    requires forall e :: e in reverts ==> e.Revert?
    requires forall p :: p in bare ==> exists e :: e in reverts && SlotsOf(e.path) == p
    ensures LeftBare(reverts, bare) == {}
    decreases |reverts|
  {
    if reverts != [] {
      assert reverts[0] in reverts && reverts == [reverts[0]] + reverts[1..];
      RevertsTidyUp(reverts[1..], BareAfter(reverts[0], bare));
    }
  }

  lemma {:induction false} LastIntendedAppend(edits: seq<Edit>, more: seq<Edit>, p: seq<Slot>, start: Option<Json>, baseline: Json)
    ensures LastIntended(edits + more, p, start, baseline)
         == LastIntended(more, p, LastIntended(edits, p, start, baseline), baseline)
    decreases |edits|
  {
    if edits == [] {
      assert edits + more == more;
    } else {
      assert (edits + more)[1..] == edits[1..] + more;
      LastIntendedAppend(edits[1..], more, p,
                         if SlotsOf(edits[0].path) == p then Intended(edits[0], baseline) else start, baseline);
    }
  }

  lemma {:induction false} RevertsIntendSaved(reverts: seq<Edit>, p: seq<Slot>, start: Option<Json>, baseline: Json)
    requires forall e :: e in reverts ==> e.Revert?
    requires start == Get(Some(baseline), p) || exists e :: e in reverts && SlotsOf(e.path) == p
    ensures LastIntended(reverts, p, start, baseline) == Get(Some(baseline), p)
    decreases |reverts|
  {
    if reverts != [] {
      var next := if SlotsOf(reverts[0].path) == p then Intended(reverts[0], baseline) else start;
      assert reverts[0] in reverts;
      assert reverts == [reverts[0]] + reverts[1..];
      RevertsIntendSaved(reverts[1..], p, next, baseline);
    }
  }
}
