/** The option tree of the extra-config modal (config-ui/src/extra_config_modal.rs):
    `build_tree`, `insert` and `sort_tree`, against the flat entry list. */
module SchemaTree {
  import opened Prelude
  import opened Text

  /** One schema entry; only the parts the tree and the search read. */
  datatype Entry = Entry(path: string, deprecated: bool, title: Option<string>, help: Option<string>)

  datatype Node = Node(
    name: string,
    fullPath: string,
    entry: Option<Entry>,
    children: seq<Node>,
    item: Option<Node>)

  const ROOT: Node := Node("", "", None, [], None)

  /** The name of the element node of an array. */
  const STAR: string := "*"

  function Extend(fullPath: string, segment: string): string {
    if fullPath == [] then segment else fullPath + "." + segment
  }

  function Fresh(parent: Node, segment: string): Node {
    Node(segment, Extend(parent.fullPath, segment), None, [], None)
  }

  /** `position(|c| c.name == name)` */
  function Position(children: seq<Node>, name: string): (i: Option<nat>)
    ensures i.Some? ==> i.value < |children| && children[i.value].name == name
    ensures i.None? ==> forall j :: 0 <= j < |children| ==> children[j].name != name
  {
    if children == [] then None
    else if children[0].name == name then Some(0)
    else
      var rest := Position(children[1..], name);
      if rest.None? then None else Some(rest.value + 1)
  }

  function Insert(node: Node, segments: seq<string>, entry: Entry): (result: Node)
    ensures result.name == node.name && result.fullPath == node.fullPath
    decreases |segments|
  {
    if segments == [] then
      node.(entry := Some(entry))
    else
      var head, rest := segments[0], segments[1..];
      if head == STAR then
        var item := if node.item.Some? then node.item.value else Fresh(node, STAR);
        node.(item := Some(Insert(item, rest, entry)))
      else
        var i := Position(node.children, head);
        if i.Some? then
          node.(children := node.children[i.value := Insert(node.children[i.value], rest, entry)])
        else
          node.(children := node.children + [Insert(Fresh(node, head), rest, entry)])
  }

  function Segments(entry: Entry): seq<string> {
    Split(entry.path, '.')
  }

  /** The loop of `build_tree` before sorting. */
  function InsertAll(node: Node, entries: seq<Entry>): Node
    decreases |entries|
  {
    if entries == [] then node
    else InsertAll(if entries[0].deprecated then node else Insert(node, Segments(entries[0]), entries[0]), entries[1..])
  }

  // ---- sorting ---------------------------------------------------------------

  /** Insertion after equal names, so the sort is stable. */
  function InsertSorted(node: Node, sorted: seq<Node>): (result: seq<Node>)
    ensures multiset(result) == multiset([node]) + multiset(sorted)
  {
    if sorted == [] then
      [node]
    else if Less(node.name, sorted[0].name) then
      [node] + sorted
    else
      assert sorted == [sorted[0]] + sorted[1..];
      [sorted[0]] + InsertSorted(node, sorted[1..])
  }

  function SortByName(children: seq<Node>): (sorted: seq<Node>)
    ensures multiset(sorted) == multiset(children)
    ensures |sorted| == |children|
    ensures forall c :: c in sorted <==> c in children
  {
    if children == [] then
      []
    else
      var n := |children| - 1;
      assert children == children[..n] + [children[n]];
      var sorted := InsertSorted(children[n], SortByName(children[..n]));
      assert |multiset(sorted)| == |multiset(children)|;
      assert forall c :: c in sorted <==> c in multiset(sorted);
      assert forall c :: c in children <==> c in multiset(children);
      sorted
  }

  function SortTree(node: Node): (result: Node)
    ensures result.name == node.name
    decreases node
  {
    var sorted := SortByName(node.children);
    node.(children := seq(|sorted|, i requires 0 <= i < |sorted| =>
                            assert sorted[i] in node.children;
                            SortTree(sorted[i])),
          item := if node.item.Some? then Some(SortTree(node.item.value)) else None)
  }

  method BuildTree(entries: seq<Entry>) returns (root: Node)
    ensures root == SortTree(InsertAll(ROOT, entries))
  {
    root := ROOT;
    var i := 0;
    while i < |entries|
      invariant 0 <= i <= |entries|
      invariant InsertAll(ROOT, entries) == InsertAll(root, entries[i..])
    {
      assert entries[i..][1..] == entries[i + 1..];
      if !entries[i].deprecated {
        root := Insert(root, Segments(entries[i]), entries[i]);
      }
      i := i + 1;
    }
    root := SortTree(root);
  }

  // ---- looking up ------------------------------------------------------------

  function ChildNamed(children: seq<Node>, name: string): Option<Node> {
    var i := Position(children, name);
    if i.Some? then Some(children[i.value]) else None
  }

  function StepTo(node: Node, segment: string): Option<Node> {
    if segment == STAR then node.item else ChildNamed(node.children, segment)
  }

  /** The node reached along a list of segments. */
  function NodeAt(node: Option<Node>, segments: seq<string>): Option<Node>
    decreases |segments|
  {
    if segments == [] || node.None? then node
    else NodeAt(StepTo(node.value, segments[0]), segments[1..])
  }

  function EntryAt(node: Option<Node>, segments: seq<string>): Option<Entry> {
    var found := NodeAt(node, segments);
    if found.Some? then found.value.entry else None
  }

  lemma {:induction false} PositionIsFirst(children: seq<Node>, name: string, i: nat)
    requires i < |children| && children[i].name == name
    requires forall j :: 0 <= j < i ==> children[j].name != name
    ensures Position(children, name) == Some(i)
  {
    if i > 0 {
      PositionIsFirst(children[1..], name, i - 1);
    }
  }

  lemma {:induction false} PositionFirst(children: seq<Node>, name: string)
    ensures var i := Position(children, name);
            i.Some? ==> forall j :: 0 <= j < i.value ==> children[j].name != name
  {
    if children != [] && children[0].name != name {
      PositionFirst(children[1..], name);
    }
  }

  /** Inserting one entry changes the lookup at its own path and nowhere else, and
      creates exactly the nodes on the way there. */
  lemma {:induction false} InsertLookup(node: Node, segments: seq<string>, entry: Entry, q: seq<string>)
    ensures EntryAt(Some(Insert(node, segments, entry)), q) ==
            if q == segments then Some(entry) else EntryAt(Some(node), q)
    ensures NodeAt(Some(Insert(node, segments, entry)), q).Some? <==> NodeAt(Some(node), q).Some? || q <= segments
    decreases |segments|
  {
    if segments != [] && q != [] {
      var after := Insert(node, segments, entry);
      StepAfterInsert(node, segments, entry, q[0]);
      assert NodeAt(Some(after), q) == NodeAt(StepTo(after, q[0]), q[1..]);
      assert NodeAt(Some(node), q) == NodeAt(StepTo(node, q[0]), q[1..]);
      if q[0] == segments[0] {
        var below := StepTo(node, q[0]);
        var child := if below.Some? then below.value else Fresh(node, q[0]);
        InsertLookup(child, segments[1..], entry, q[1..]);
        assert q == [q[0]] + q[1..] && segments == [q[0]] + segments[1..];
        FreshIsEmpty(node, q[0], q[1..]);
      }
    }
  }

  lemma FreshIsEmpty(parent: Node, segment: string, q: seq<string>)
    ensures EntryAt(Some(Fresh(parent, segment)), q) == None
    ensures NodeAt(Some(Fresh(parent, segment)), q).Some? <==> q == []
  {
  }

  /** One step below an insertion: the inserted-into child at its head, the old child elsewhere. */
  lemma StepAfterInsert(node: Node, segments: seq<string>, entry: Entry, s: string)
    requires segments != []
    ensures StepTo(Insert(node, segments, entry), s) ==
            if s == segments[0]
            then var below := StepTo(node, s);
                 Some(Insert(if below.Some? then below.value else Fresh(node, s), segments[1..], entry))
            else StepTo(node, s)
  {
    var head := segments[0];
    if head != STAR && s != STAR {
      var before, after := node.children, Insert(node, segments, entry).children;
      PositionFirst(before, s);
      PositionFirst(before, head);
      var at := Position(before, s);
      if at.Some? {
        PositionIsFirst(after, s, at.value);
      } else if s == head {
        PositionIsFirst(after, s, |before|);
      } else {
        assert forall j :: 0 <= j < |after| ==> after[j].name != s;
      }
    }
  }

  /** The last live entry whose segments are `q`. */
  function LastLive(entries: seq<Entry>, q: seq<string>, start: Option<Entry>): Option<Entry>
    decreases |entries|
  {
    if entries == [] then start
    else LastLive(entries[1..], q, if !entries[0].deprecated && Segments(entries[0]) == q then Some(entries[0]) else start)
  }

  lemma {:induction false} InsertAllLookup(node: Node, entries: seq<Entry>, q: seq<string>)
    ensures EntryAt(Some(InsertAll(node, entries)), q) == LastLive(entries, q, EntryAt(Some(node), q))
    ensures NodeAt(Some(InsertAll(node, entries)), q).Some? <==>
            NodeAt(Some(node), q).Some? || exists e :: e in entries && !e.deprecated && q <= Segments(e)
    decreases |entries|
  {
    if entries != [] {
      var e := entries[0];
      assert forall x :: x in entries <==> x == e || x in entries[1..];
      if e.deprecated {
        InsertAllLookup(node, entries[1..], q);
      } else {
        InsertLookup(node, Segments(e), e, q);
        InsertAllLookup(Insert(node, Segments(e), e), entries[1..], q);
      }
    }
  }

  // ---- names -----------------------------------------------------------------

  predicate DistinctNames(children: seq<Node>) {
    && (forall i :: 0 <= i < |children| ==> children[i].name != STAR)
    && forall i, j :: 0 <= i < j < |children| ==> children[i].name != children[j].name
  }

  /** Siblings have different names, none is "*", at every depth. */
  ghost predicate WellNamed(node: Node) {
    && DistinctNames(node.children)
    && (forall c :: c in node.children ==> WellNamed(c))
    && (node.item.Some? ==> WellNamed(node.item.value))
  }

  lemma {:induction false} InsertWellNamed(node: Node, segments: seq<string>, entry: Entry)
    requires WellNamed(node)
    ensures WellNamed(Insert(node, segments, entry))
    decreases |segments|
  {
    if segments != [] {
      var head, rest := segments[0], segments[1..];
      var below := StepTo(node, head);
      if below.Some? {
        InsertWellNamed(below.value, rest, entry);
      } else {
        InsertWellNamed(Fresh(node, head), rest, entry);
      }
    }
  }

  lemma {:induction false} InsertAllWellNamed(node: Node, entries: seq<Entry>)
    requires WellNamed(node)
    ensures WellNamed(InsertAll(node, entries))
    decreases |entries|
  {
    if entries != [] {
      InsertWellNamed(node, Segments(entries[0]), entries[0]);
      InsertAllWellNamed(if entries[0].deprecated then node else Insert(node, Segments(entries[0]), entries[0]), entries[1..]);
    }
  }

  // ---- the sorted tree ---------------------------------------------------------

  predicate SortedNames(children: seq<Node>) {
    forall i, j :: 0 <= i < j < |children| ==> Less(children[i].name, children[j].name)
  }

  ghost predicate StrictlySorted(node: Node) {
    && SortedNames(node.children)
    && (forall i :: 0 <= i < |node.children| ==> node.children[i].name != STAR)
    && (forall c :: c in node.children ==> StrictlySorted(c))
    && (node.item.Some? ==> StrictlySorted(node.item.value))
  }

  lemma InsertSortedMembers(node: Node, sorted: seq<Node>)
    ensures forall c :: c in InsertSorted(node, sorted) <==> c == node || c in sorted
  {
    var result := InsertSorted(node, sorted);
    forall c ensures c in result <==> c == node || c in sorted {
      assert c in result <==> c in multiset(result);
      assert c in sorted <==> c in multiset(sorted);
    }
  }

  lemma {:induction false} InsertSortedSorts(node: Node, sorted: seq<Node>)
    requires SortedNames(sorted) && forall i :: 0 <= i < |sorted| ==> sorted[i].name != node.name
    ensures SortedNames(InsertSorted(node, sorted))
    decreases |sorted|
  {
    if sorted != [] {
      LessIsTotal(node.name, sorted[0].name);
      if Less(node.name, sorted[0].name) {
        forall i | 0 < i < |sorted| ensures Less(node.name, sorted[i].name) {
          LessIsTransitive(node.name, sorted[0].name, sorted[i].name);
        }
      } else {
        InsertSortedSorts(node, sorted[1..]);
        InsertSortedMembers(node, sorted[1..]);
        var rest := InsertSorted(node, sorted[1..]);
        forall i | 0 <= i < |rest| ensures Less(sorted[0].name, rest[i].name) {
          assert rest[i] in rest;
        }
      }
    }
  }

  lemma {:induction false} SortByNameSorts(children: seq<Node>)
    requires DistinctNames(children)
    ensures SortedNames(SortByName(children))
    decreases |children|
  {
    if children != [] {
      var n := |children| - 1;
      SortByNameSorts(children[..n]);
      var sorted := SortByName(children[..n]);
      forall i | 0 <= i < |sorted| ensures sorted[i].name != children[n].name {
        assert sorted[i] in children[..n];
      }
      InsertSortedSorts(children[n], SortByName(children[..n]));
    }
  }

  lemma {:induction false} SortTreeSorts(node: Node)
    requires WellNamed(node)
    ensures StrictlySorted(SortTree(node))
    decreases node
  {
    SortByNameSorts(node.children);
    var sorted := SortByName(node.children);
    var result := SortTree(node);
    forall i | 0 <= i < |sorted| ensures StrictlySorted(result.children[i]) && result.children[i].name != STAR {
      assert sorted[i] in node.children;
      SortTreeSorts(sorted[i]);
    }
    if node.item.Some? {
      SortTreeSorts(node.item.value);
    }
  }

  /** Among siblings with different names, position does not matter to a lookup. */
  lemma ChildNamedIsMembership(children: seq<Node>, name: string, child: Node)
    requires DistinctNames(children) && child in children && child.name == name
    ensures ChildNamed(children, name) == Some(child)
  {
    var i :| 0 <= i < |children| && children[i] == child;
    PositionIsFirst(children, name, i);
  }

  lemma StepAfterSort(node: Node, s: string)
    requires WellNamed(node)
    ensures StepTo(SortTree(node), s) == Sorted(StepTo(node, s))
    ensures StepTo(node, s).Some? ==> WellNamed(StepTo(node, s).value)
  {
    var result := SortTree(node);
    if s != STAR {
      SortTreeSorts(node);
      var sorted := SortByName(node.children);
      assert DistinctNames(result.children) by {
        forall i, j | 0 <= i < j < |result.children|
          ensures result.children[i].name != result.children[j].name
        {
          LessIsTotal(result.children[i].name, result.children[j].name);
        }
      }
      var below := StepTo(node, s);
      if below.Some? {
        assert below.value in sorted;
        var i :| 0 <= i < |sorted| && sorted[i] == below.value;
        assert result.children[i] == SortTree(below.value);
        ChildNamedIsMembership(result.children, s, SortTree(below.value));
      } else {
        forall i | 0 <= i < |sorted| ensures result.children[i].name != s {
          assert sorted[i] in node.children;
        }
      }
    }
  }

  function Sorted(node: Option<Node>): Option<Node> {
    if node.Some? then Some(SortTree(node.value)) else None
  }

  /** Sorting changes no lookup: the node found is the sorted version of the one found before. */
  lemma {:induction false} SortKeepsLookups(node: Option<Node>, q: seq<string>)
    requires node.Some? ==> WellNamed(node.value)
    ensures NodeAt(Sorted(node), q) == Sorted(NodeAt(node, q))
    decreases |q|
  {
    if q != [] && node.Some? {
      StepAfterSort(node.value, q[0]);
      SortKeepsLookups(StepTo(node.value, q[0]), q[1..]);
    }
  }

  // ---- the main result ---------------------------------------------------------

  function Tree(entries: seq<Entry>): Node {
    SortTree(InsertAll(ROOT, entries))
  }

  /** The last entry of the list with this path that is not deprecated. */
  function LastLiveAtPath(entries: seq<Entry>, path: string): Option<Entry>
    decreases |entries|
  {
    if entries == [] then
      None
    else
      var last := entries[|entries| - 1];
      if !last.deprecated && last.path == path then Some(last)
      else LastLiveAtPath(entries[..|entries| - 1], path)
  }

  lemma {:induction false} LastLiveSnoc(entries: seq<Entry>, last: Entry, q: seq<string>, start: Option<Entry>)
    ensures LastLive(entries + [last], q, start) ==
            if !last.deprecated && Segments(last) == q then Some(last) else LastLive(entries, q, start)
    decreases |entries|
  {
    if entries == [] {
      assert (entries + [last])[1..] == [];
    } else {
      assert (entries + [last])[1..] == entries[1..] + [last];
      LastLiveSnoc(entries[1..], last, q,
                   if !entries[0].deprecated && Segments(entries[0]) == q then Some(entries[0]) else start);
    }
  }

  lemma {:induction false} LastLiveByPath(entries: seq<Entry>, path: string)
    ensures LastLive(entries, Split(path, '.'), None) == LastLiveAtPath(entries, path)
    decreases |entries|
  {
    if entries != [] {
      var n := |entries| - 1;
      assert entries == entries[..n] + [entries[n]];
      LastLiveSnoc(entries[..n], entries[n], Split(path, '.'), None);
      LastLiveByPath(entries[..n], path);
      JoinSplit(entries[n].path, '.');
      JoinSplit(path, '.');
    }
  }

  /** The tree refines the list: looking a path up finds the last live entry with
      that path; a node exists exactly where some live entry lies at or below it;
      siblings are strictly sorted, hence different, and never "*". */
  lemma TreeRefinesList(entries: seq<Entry>)
    ensures forall path :: EntryAt(Some(Tree(entries)), Split(path, '.')) == LastLiveAtPath(entries, path)
    ensures forall q :: NodeAt(Some(Tree(entries)), q).Some? <==>
                        q == [] || exists e :: e in entries && !e.deprecated && q <= Segments(e)
    ensures StrictlySorted(Tree(entries))
  {
    var unsorted := InsertAll(ROOT, entries);
    InsertAllWellNamed(ROOT, entries);
    SortTreeSorts(unsorted);
    forall path ensures EntryAt(Some(Tree(entries)), Split(path, '.')) == LastLiveAtPath(entries, path) {
      var q := Split(path, '.');
      SortKeepsLookups(Some(unsorted), q);
      InsertAllLookup(ROOT, entries, q);
      RootIsEmpty(q);
      LastLiveByPath(entries, path);
    }
    forall q ensures NodeAt(Some(Tree(entries)), q).Some? <==>
                     q == [] || exists e :: e in entries && !e.deprecated && q <= Segments(e)
    {
      SortKeepsLookups(Some(unsorted), q);
      InsertAllLookup(ROOT, entries, q);
      RootIsEmpty(q);
    }
  }

  lemma RootIsEmpty(q: seq<string>)
    ensures EntryAt(Some(ROOT), q) == None
    ensures NodeAt(Some(ROOT), q).Some? <==> q == []
  {
    FreshIsEmpty(ROOT, "", q);
    assert Fresh(ROOT, "") == ROOT;
  }

  // ---- full paths ----------------------------------------------------------------

  /** The full path the code gives the node at `q`. */
  function PathOf(q: seq<string>): string {
    if q == [] then "" else Extend(PathOf(q[..|q| - 1]), q[|q| - 1])
  }

  /** Every node carries the full path of its place. */
  ghost predicate Labelled(node: Node, at: seq<string>)
    decreases node
  {
    && node.fullPath == PathOf(at)
    && (forall c :: c in node.children ==> Labelled(c, at + [c.name]))
    && (node.item.Some? ==> Labelled(node.item.value, at + [STAR]))
  }

  lemma PathOfSnoc(at: seq<string>, s: string)
    ensures PathOf(at + [s]) == Extend(PathOf(at), s)
  {
    assert (at + [s])[..|at|] == at;
  }

  lemma {:induction false} InsertLabelled(node: Node, at: seq<string>, segments: seq<string>, entry: Entry)
    requires Labelled(node, at)
    ensures Labelled(Insert(node, segments, entry), at)
    decreases |segments|
  {
    if segments != [] {
      var head, rest := segments[0], segments[1..];
      PathOfSnoc(at, head);
      var below := StepTo(node, head);
      var child := if below.Some? then below.value else Fresh(node, head);
      if head != STAR && below.Some? {
        assert child in node.children;
      }
      InsertLabelled(child, at + [head], rest, entry);
      var result := Insert(node, segments, entry);
      forall c | c in result.children ensures Labelled(c, at + [c.name]) {
        assert c in node.children || c == Insert(child, rest, entry);
      }
    }
  }

  lemma {:induction false} SortLabelled(node: Node, at: seq<string>)
    requires Labelled(node, at)
    ensures Labelled(SortTree(node), at)
    decreases node
  {
    var sorted, result := SortByName(node.children), SortTree(node);
    forall i | 0 <= i < |sorted| ensures Labelled(result.children[i], at + [result.children[i].name]) {
      assert sorted[i] in node.children;
      SortLabelled(sorted[i], at + [sorted[i].name]);
    }
    if node.item.Some? {
      SortLabelled(node.item.value, at + [STAR]);
    }
  }

  lemma {:induction false} InsertAllLabelled(node: Node, entries: seq<Entry>)
    requires Labelled(node, [])
    ensures Labelled(InsertAll(node, entries), [])
    decreases |entries|
  {
    if entries != [] {
      InsertLabelled(node, [], Segments(entries[0]), entries[0]);
      InsertAllLabelled(if entries[0].deprecated then node else Insert(node, Segments(entries[0]), entries[0]), entries[1..]);
    }
  }

  lemma LabelledStep(node: Node, at: seq<string>, segment: string)
    requires Labelled(node, at) && StepTo(node, segment).Some?
    ensures Labelled(StepTo(node, segment).value, at + [segment])
  {
    assert segment != STAR ==> StepTo(node, segment).value in node.children;
  }

  lemma {:induction false} LabelledAt(node: Node, at: seq<string>, q: seq<string>)
    requires Labelled(node, at)
    ensures var found := NodeAt(Some(node), q);
            found.Some? ==> Labelled(found.value, at + q)
    decreases |q|
  {
    if q == [] {
      assert at + q == at;
    } else {
      var below := StepTo(node, q[0]);
      if below.Some? {
        LabelledStep(node, at, q[0]);
        LabelledAt(below.value, at + [q[0]], q[1..]);
        assert at + [q[0]] + q[1..] == at + q;
      }
    }
  }

  /** The code's full path is the dotted path, except that a path which starts with
      an empty segment loses its leading dot. */
  lemma {:induction false} PathOfIsJoin(q: seq<string>)
    ensures PathOf(q) == Join(q, '.') <==> |q| <= 1 || q[0] != ""
    ensures |q| >= 1 && q[0] != "" ==> PathOf(q) != ""
    ensures |q| > 1 && q[0] == "" ==> |PathOf(q)| < |Join(q, '.')|
    decreases |q|
  {
    if |q| == 1 {
      assert q[..0] == [];
    } else if |q| > 1 {
      var n := |q| - 1;
      PathOfIsJoin(q[..n]);
      JoinSnoc(q[..n], q[n]);
      assert q == q[..n] + [q[n]];
    }
  }

  lemma {:induction false} JoinSnoc(pieces: seq<string>, last: string)
    requires pieces != []
    ensures Join(pieces + [last], '.') == Join(pieces, '.') + "." + last
    decreases |pieces|
  {
    if |pieces| == 1 {
      assert (pieces + [last])[1..] == [last];
    } else {
      assert (pieces + [last])[1..] == pieces[1..] + [last];
      JoinSnoc(pieces[1..], last);
    }
  }

  /** In the built tree every node's full path is the dotted form of its segments,
      exactly when those do not start with an empty segment before others. */
  lemma FullPathsAreDotted(entries: seq<Entry>, q: seq<string>)
    requires NodeAt(Some(Tree(entries)), q).Some?
    ensures NodeAt(Some(Tree(entries)), q).value.fullPath == Join(q, '.') <==> |q| <= 1 || q[0] != ""
  {
    InsertAllLabelled(ROOT, entries);
    SortLabelled(InsertAll(ROOT, entries), []);
    LabelledAt(Tree(entries), [], q);
    assert [] + q == q;
    PathOfIsJoin(q);
  }

  lemma LeadingSegment(path: string)
    requires path == "" || path[0] != '.'
    ensures |Split(path, '.')| <= 1 || Split(path, '.')[0] != ""
  {
  }

  /** Every live option has a node of its own in the built tree, labelled with its path. */
  lemma OptionNode(entries: seq<Entry>, path: string)
    requires LastLiveAtPath(entries, path).Some? && (path == "" || path[0] != '.')
    ensures var found := NodeAt(Some(Tree(entries)), Split(path, '.'));
            found.Some? && found.value.entry == LastLiveAtPath(entries, path) && found.value.fullPath == path
  {
    TreeRefinesList(entries);
    assert EntryAt(Some(Tree(entries)), Split(path, '.')) == LastLiveAtPath(entries, path);
    LeadingSegment(path);
    FullPathsAreDotted(entries, Split(path, '.'));
    JoinSplit(path, '.');
  }
}
