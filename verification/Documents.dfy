/** JSON documents and slot paths into them. */
module Documents {
  import opened Prelude

  /** The text a JSON number prints as. */
  predicate IsNumberLiteral(s: string) {
    s != [] && forall c :: c in s ==> IsDigit(c) || c in "+-.eE"
  }

  type NumberLiteral = s: string | IsNumberLiteral(s) witness "0"

  datatype Json =
    | Null
    | Bool(b: bool)
    | Num(literal: NumberLiteral)
    | Str(text: string)
    | Arr(items: seq<Json>)
    | Obj(fields: map<string, Json>)

  const EMPTY_OBJECT: Json := Obj(map[])

  /** What one path segment addresses: an object key or an array index. */
  datatype Slot = Key(name: string) | Index(at: nat)

  /** A segment that parses as `usize` addresses an array element. */
  function SlotOf(segment: string): Slot {
    var n := ParseU64(segment);
    if n.Some? then Index(n.value) else Key(segment)
  }

  function SlotsOf(path: seq<string>): (slots: seq<Slot>)
    ensures |slots| == |path|
    ensures forall i :: 0 <= i < |path| ==> slots[i] == SlotOf(path[i])
  {
    seq(|path|, i requires 0 <= i < |path| => SlotOf(path[i]))
  }

  /** The child of an optional document in one slot. */
  function Child(doc: Option<Json>, slot: Slot): Option<Json> {
    match (doc, slot)
    case (Some(Obj(fields)), Key(k)) => if k in fields then Some(fields[k]) else None
    case (Some(Arr(items)), Index(i)) => if i < |items| then Some(items[i]) else None
    case _ => None
  }

  /** The value at a slot path, if every step exists. */
  function Get(doc: Option<Json>, path: seq<Slot>): Option<Json>
    decreases |path|
  {
    if path == [] then doc else Get(Child(doc, path[0]), path[1..])
  }

  /** Two paths part ways at some position before either ends. */
  predicate Diverge(p: seq<Slot>, q: seq<Slot>)
    decreases |p|
  {
    p != [] && q != [] && (p[0] != q[0] || Diverge(p[1..], q[1..]))
  }

  lemma {:induction false} GetMissing(path: seq<Slot>)
    ensures Get(None, path) == None
    decreases |path|
  {
    if path != [] {
      GetMissing(path[1..]);
    }
  }

  /** `path` steps only into containers of the right kind, and every array
      element it names exists. Missing object keys are allowed. */
  predicate Fits(doc: Option<Json>, path: seq<Slot>)
    decreases |path|
  {
    path == [] ||
    (match path[0]
     case Key(_) => (doc.None? || doc.value.Obj?) && Fits(Child(doc, path[0]), path[1..])
     case Index(_) => Child(doc, path[0]).Some? && Fits(Child(doc, path[0]), path[1..]))
  }

  // ---- mutable cursors -------------------------------------------------

  /** One container a mutable cursor has stepped through. */
  datatype Frame =
    | InObj(fields: map<string, Json>, key: string)
    | InArr(items: seq<Json>, at: nat)

  function Fill(frame: Frame, value: Json): Json {
    match frame
    case InObj(fields, key) => Obj(fields[key := value])
    case InArr(items, at) => if at < |items| then Arr(items[at := value]) else Arr(items)
  }

  /** The whole document once the value under the cursor is `value`. */
  function Plug(trail: seq<Frame>, value: Json): Json {
    if trail == [] then value
    else Plug(trail[..|trail| - 1], Fill(trail[|trail| - 1], value))
  }

  lemma PlugStep(trail: seq<Frame>, frame: Frame, value: Json)
    ensures Plug(trail + [frame], value) == Plug(trail, Fill(frame, value))
  {
    assert (trail + [frame])[..|trail|] == trail;
  }

  /** `items` grown with `filler` until it has at least `size` elements. */
  function PadTo(items: seq<Json>, size: nat, filler: Json): (padded: seq<Json>)
    ensures |padded| == if |items| < size then size else |items|
    ensures items <= padded
    ensures forall i :: |items| <= i < |padded| ==> padded[i] == filler
  {
    if |items| < size then items + seq(size - |items|, _ => filler) else items
  }
}
