/** The option search of the extra-config modal (config-ui/src/extra_config_modal.rs):
    `ordered_contains`, `node_haystack` and `node_matches_tokens`. */
module TreeSearch {
  import opened Prelude
  import opened Text
  import opened SchemaTree

  predicate OccursAt(hay: string, token: string, at: nat) {
    at + |token| <= |hay| && hay[at..at + |token|] == token
  }

  /** `hay[from..].find(token)`, as a position in `hay`: the first occurrence. */
  function FindFrom(hay: string, token: string, from: nat): (found: Option<nat>)
    requires from <= |hay|
    ensures found.Some? ==> from <= found.value && OccursAt(hay, token, found.value)
                            && forall i :: from <= i < found.value ==> !OccursAt(hay, token, i)
    ensures found.None? ==> forall i :: from <= i ==> !OccursAt(hay, token, i)
    decreases |hay| - from
  {
    if OccursAt(hay, token, from) then Some(from)
    else if from == |hay| then None
    else FindFrom(hay, token, from + 1)
  }

  /** The greedy loop from position `pos` on. */
  predicate OrderedFrom(hay: string, tokens: seq<string>, pos: nat)
    requires pos <= |hay|
    decreases |tokens|
  {
    tokens == [] ||
    var found := FindFrom(hay, tokens[0], pos);
    found.Some? && OrderedFrom(hay, tokens[1..], found.value + |tokens[0]|)
  }

  method OrderedContains(hay: string, tokens: seq<string>) returns (all: bool)
    ensures all <==> Placeable(hay, tokens)
  {
    var pos: nat := 0;
    var i := 0;
    while i < |tokens|
      invariant 0 <= i <= |tokens| && pos <= |hay|
      invariant OrderedFrom(hay, tokens, 0) <==> OrderedFrom(hay, tokens[i..], pos)
    {
      assert tokens[i..][1..] == tokens[i + 1..];
      var found := FindFrom(hay, tokens[i], pos);
      if found.None? {
        GreedyIsComplete(hay, tokens);
        return false;
      }
      pos := found.value + |tokens[i]|;
      i := i + 1;
    }
    GreedyIsComplete(hay, tokens);
    return true;
  }

  /** Positions for all tokens: each token occurs there, in order, without overlap,
      none before `from`. */
  predicate IsPlacement(hay: string, tokens: seq<string>, from: nat, at: seq<nat>) {
    && |at| == |tokens|
    && (forall i :: 0 <= i < |at| ==> from <= at[i] && OccursAt(hay, tokens[i], at[i]))
    && forall i, j :: 0 <= i < j < |at| ==> at[i] + |tokens[i]| <= at[j]
  }

  ghost predicate Placeable(hay: string, tokens: seq<string>) {
    exists at :: IsPlacement(hay, tokens, 0, at)
  }

  lemma {:induction false} GreedyFinds(hay: string, tokens: seq<string>, pos: nat) returns (at: seq<nat>)
    requires pos <= |hay| && OrderedFrom(hay, tokens, pos)
    ensures IsPlacement(hay, tokens, pos, at)
    decreases |tokens|
  {
    if tokens == [] {
      at := [];
    } else {
      var first := FindFrom(hay, tokens[0], pos).value;
      var rest := GreedyFinds(hay, tokens[1..], first + |tokens[0]|);
      at := [first] + rest;
    }
  }

  /** Greedy never blocks itself: any placement from an earlier start witnesses success. */
  lemma {:induction false} PlacementSuffices(hay: string, tokens: seq<string>, pos: nat, at: seq<nat>)
    requires pos <= |hay| && IsPlacement(hay, tokens, pos, at)
    ensures OrderedFrom(hay, tokens, pos)
    decreases |tokens|
  {
    if tokens != [] {
      var found := FindFrom(hay, tokens[0], pos);
      assert OccursAt(hay, tokens[0], at[0]);
      assert found.Some? && found.value <= at[0];
      PlacementSuffices(hay, tokens[1..], found.value + |tokens[0]|, at[1..]);
    }
  }

  /** The greedy search succeeds exactly when some placement exists. */
  lemma GreedyIsComplete(hay: string, tokens: seq<string>)
    ensures OrderedFrom(hay, tokens, 0) <==> Placeable(hay, tokens)
  {
    if OrderedFrom(hay, tokens, 0) {
      var at := GreedyFinds(hay, tokens, 0);
    }
    if Placeable(hay, tokens) {
      var at :| IsPlacement(hay, tokens, 0, at);
      PlacementSuffices(hay, tokens, 0, at);
    }
  }

  // ---- nodes -------------------------------------------------------------------

  function Spaced(path: string): string {
    seq(|path|, i requires 0 <= i < |path| => if path[i] == '.' then ' ' else path[i])
  }

  function Appended(s: string, extra: Option<string>, lower: string -> string): string {
    if extra.Some? then s + " " + lower(extra.value) else s
  }

  /** The text a node is searched in; `lower` is Unicode lower-casing. */
  function Haystack(node: Node, lower: string -> string): string {
    var s := lower(Spaced(node.fullPath));
    if node.entry.None? then s
    else Appended(Appended(s, node.entry.value.title, lower), node.entry.value.help, lower)
  }

  predicate NodeMatches(node: Node, tokens: seq<string>, lower: string -> string) {
    || tokens == []
    || OrderedFrom(Haystack(node, lower), tokens, 0)
    || (exists i :: 0 <= i < |node.children| && NodeMatches(node.children[i], tokens, lower))
    || (node.item.Some? && NodeMatches(node.item.value, tokens, lower))
  }

  /** A node itself, wherever it is reached, has a placement of all tokens. */
  ghost predicate HitAt(node: Node, q: seq<string>, tokens: seq<string>, lower: string -> string) {
    NodeAt(Some(node), q).Some? && Placeable(Haystack(NodeAt(Some(node), q).value, lower), tokens)
  }

  lemma {:induction false} MatchHasHit(node: Node, tokens: seq<string>, lower: string -> string) returns (q: seq<string>)
    requires WellNamed(node) && NodeMatches(node, tokens, lower)
    ensures HitAt(node, q, tokens, lower)
    decreases node
  {
    q := [];
    if tokens == [] {
      assert IsPlacement(Haystack(node, lower), tokens, 0, []);
    } else if OrderedFrom(Haystack(node, lower), tokens, 0) {
      GreedyIsComplete(Haystack(node, lower), tokens);
    } else {
      var child;
      if exists i :: 0 <= i < |node.children| && NodeMatches(node.children[i], tokens, lower) {
        var i :| 0 <= i < |node.children| && NodeMatches(node.children[i], tokens, lower);
        child := node.children[i];
        ChildNamedIsMembership(node.children, child.name, child);
        q := [child.name];
      } else {
        child := node.item.value;
        q := [STAR];
      }
      assert StepTo(node, q[0]) == Some(child);
      var rest := MatchHasHit(child, tokens, lower);
      q := q + rest;
      assert q[1..] == rest;
    }
  }

  lemma {:induction false} HitMeansMatch(node: Node, q: seq<string>, tokens: seq<string>, lower: string -> string)
    requires HitAt(node, q, tokens, lower)
    ensures NodeMatches(node, tokens, lower)
    decreases |q|
  {
    if q == [] {
      GreedyIsComplete(Haystack(node, lower), tokens);
    } else {
      assert NodeAt(Some(node), q) == NodeAt(StepTo(node, q[0]), q[1..]);
      var below := StepTo(node, q[0]).value;
      HitMeansMatch(below, q[1..], tokens, lower);
      if q[0] != STAR {
        var i := Position(node.children, q[0]).value;
        assert NodeMatches(node.children[i], tokens, lower);
      }
    }
  }

  /** A node is shown exactly when it or some node below it holds all tokens in
      order; so no ancestor of a hit is ever hidden. */
  lemma ShownIffSomeHit(node: Node, tokens: seq<string>, lower: string -> string)
    requires WellNamed(node)
    ensures NodeMatches(node, tokens, lower) <==> exists q :: HitAt(node, q, tokens, lower)
  {
    if NodeMatches(node, tokens, lower) {
      var q := MatchHasHit(node, tokens, lower);
    }
    if exists q :: HitAt(node, q, tokens, lower) {
      var q :| HitAt(node, q, tokens, lower);
      HitMeansMatch(node, q, tokens, lower);
    }
  }

  /** Typing more only narrows: dropping any one token, anywhere, keeps every match. */
  lemma FewerTokensMatchMore(node: Node, tokens: seq<string>, drop: nat, lower: string -> string)
    requires WellNamed(node) && drop < |tokens|
    requires NodeMatches(node, tokens, lower)
    ensures NodeMatches(node, tokens[..drop] + tokens[drop + 1..], lower)
  {
    var q := MatchHasHit(node, tokens, lower);
    var hay := Haystack(NodeAt(Some(node), q).value, lower);
    var at :| IsPlacement(hay, tokens, 0, at);
    var fewer := tokens[..drop] + tokens[drop + 1..];
    assert IsPlacement(hay, fewer, 0, at[..drop] + at[drop + 1..]);
    HitMeansMatch(node, q, fewer, lower);
  }

  lemma {:induction false} SortedIsWellNamed(node: Node)
    requires StrictlySorted(node)
    ensures WellNamed(node)
    decreases node
  {
    forall i, j | 0 <= i < j < |node.children| ensures node.children[i].name != node.children[j].name {
      LessIsTotal(node.children[i].name, node.children[j].name);
    }
    forall c | c in node.children ensures WellNamed(c) {
      SortedIsWellNamed(c);
    }
    if node.item.Some? {
      SortedIsWellNamed(node.item.value);
    }
  }

  /** In the tree built from a schema: every option that holds the tokens in order is
      reachable by opening only nodes that are shown. */
  lemma HitsAreReachable(entries: seq<Entry>, q: seq<string>, n: nat, tokens: seq<string>, lower: string -> string)
    requires HitAt(Tree(entries), q, tokens, lower) && n <= |q|
    ensures NodeAt(Some(Tree(entries)), q[..n]).Some?
    ensures NodeMatches(NodeAt(Some(Tree(entries)), q[..n]).value, tokens, lower)
  {
    NodeAtAppend(Some(Tree(entries)), q[..n], q[n..]);
    assert q[..n] + q[n..] == q;
    var above := NodeAt(Some(Tree(entries)), q[..n]);
    assert above.Some?;
    HitMeansMatch(above.value, q[n..], tokens, lower);
  }

  lemma {:induction false} NodeAtAppend(node: Option<Node>, p: seq<string>, q: seq<string>)
    ensures NodeAt(node, p + q) == NodeAt(NodeAt(node, p), q)
    decreases |p|
  {
    if p == [] {
      assert p + q == q;
    } else if node.Some? {
      assert (p + q)[1..] == p[1..] + q;
      NodeAtAppend(StepTo(node.value, p[0]), p[1..], q);
    }
  }

  /** The same for the whole built tree: something is shown exactly when some option
      of the schema holds the tokens in order. */
  lemma SearchOfBuiltTree(entries: seq<Entry>, tokens: seq<string>, lower: string -> string)
    ensures NodeMatches(Tree(entries), tokens, lower) <==> exists q :: HitAt(Tree(entries), q, tokens, lower)
  {
    TreeRefinesList(entries);
    SortedIsWellNamed(Tree(entries));
    ShownIffSomeHit(Tree(entries), tokens, lower);
  }

  // ---- what is searched ----------------------------------------------------------

  /** A search word: not empty, no white space in it. */
  predicate IsWord(token: string) {
    token != [] && forall i :: 0 <= i < |token| ==> !IsWhitespace(token[i])
  }

  predicate AreWords(tokens: seq<string>) {
    forall t :: t in tokens ==> IsWord(t)
  }

  /** The number of tokens a placement puts within the first `size` characters. */
  function Before(tokens: seq<string>, at: seq<nat>, size: nat): (n: nat)
    requires |at| == |tokens|
    ensures n <= |tokens|
    ensures forall i :: 0 <= i < n ==> at[i] + |tokens[i]| <= size
    ensures n < |tokens| ==> at[n] + |tokens[n]| > size
  {
    if tokens == [] || at[0] + |tokens[0]| > size then 0 else 1 + Before(tokens[1..], at[1..], size)
  }

  function Shift(at: seq<nat>, offset: nat): (moved: seq<nat>)
    ensures |moved| == |at| && forall i :: 0 <= i < |at| ==> moved[i] == at[i] + offset
  {
    seq(|at|, i requires 0 <= i < |at| => at[i] + offset)
  }

  function Unshift(at: seq<nat>, offset: nat): (moved: seq<nat>)
    requires forall i :: 0 <= i < |at| ==> at[i] >= offset
    ensures |moved| == |at| && forall i :: 0 <= i < |at| ==> moved[i] == at[i] - offset
  {
    seq(|at|, i requires 0 <= i < |at| => at[i] - offset)
  }

  lemma OccursInFront(a: string, b: string, token: string, at: nat)
    requires at + |token| <= |a|
    ensures OccursAt(a + " " + b, token, at) <==> OccursAt(a, token, at)
  {
    assert (a + " " + b)[at..at + |token|] == a[at..at + |token|];
  }

  lemma OccursBehind(a: string, b: string, token: string, at: nat)
    ensures OccursAt(a + " " + b, token, at + |a| + 1) <==> OccursAt(b, token, at)
  {
    var hay := a + " " + b;
    if at + |token| <= |b| {
      assert hay[at + |a| + 1..at + |a| + 1 + |token|] == b[at..at + |token|];
    }
  }

  /** A word cannot straddle the blank between two texts. */
  lemma WordIsOnOneSide(a: string, b: string, token: string, at: nat)
    requires IsWord(token) && OccursAt(a + " " + b, token, at) && at + |token| > |a|
    ensures at >= |a| + 1
  {
    var hay := a + " " + b;
    if at <= |a| {
      assert hay[at..at + |token|][|a| - at] == hay[|a|] == ' ';
      assert IsWhitespace(token[|a| - at]);
    }
  }

  /** Placements in two texts, side by side. */
  predicate ArePlacements(a: string, b: string, tokens: seq<string>, n: nat, front: seq<nat>, back: seq<nat>) {
    n <= |tokens| && IsPlacement(a, tokens[..n], 0, front) && IsPlacement(b, tokens[n..], 0, back)
  }

  function Joined(a: string, front: seq<nat>, back: seq<nat>): (at: seq<nat>)
    ensures |at| == |front| + |back|
    ensures forall i :: 0 <= i < |front| ==> at[i] == front[i]
    ensures forall i :: |front| <= i < |at| ==> at[i] == back[i - |front|] + |a| + 1
  {
    front + Shift(back, |a| + 1)
  }

  lemma JoinedOccurs(a: string, b: string, tokens: seq<string>, n: nat, front: seq<nat>, back: seq<nat>, i: nat)
    requires ArePlacements(a, b, tokens, n, front, back) && i < |tokens|
    ensures OccursAt(a + " " + b, tokens[i], Joined(a, front, back)[i])
  {
    if i < n {
      assert tokens[..n][i] == tokens[i];
      OccursInFront(a, b, tokens[i], front[i]);
    } else {
      assert tokens[n..][i - n] == tokens[i];
      OccursBehind(a, b, tokens[i], back[i - n]);
    }
  }

  lemma JoinedInOrder(a: string, b: string, tokens: seq<string>, n: nat, front: seq<nat>, back: seq<nat>, i: nat, j: nat)
    requires ArePlacements(a, b, tokens, n, front, back) && i < j < |tokens|
    ensures Joined(a, front, back)[i] + |tokens[i]| <= Joined(a, front, back)[j]
  {
    if i < n {
      assert tokens[..n][i] == tokens[i] && OccursAt(a, tokens[..n][i], front[i]);
    } else {
      assert tokens[n..][i - n] == tokens[i];
    }
  }

  lemma JoinPlacements(a: string, b: string, tokens: seq<string>, n: nat, front: seq<nat>, back: seq<nat>)
    requires ArePlacements(a, b, tokens, n, front, back)
    ensures IsPlacement(a + " " + b, tokens, 0, Joined(a, front, back))
  {
    var at := Joined(a, front, back);
    forall i | 0 <= i < |at| ensures OccursAt(a + " " + b, tokens[i], at[i]) {
      JoinedOccurs(a, b, tokens, n, front, back, i);
    }
    forall i, j | 0 <= i < j < |at| ensures at[i] + |tokens[i]| <= at[j] {
      JoinedInOrder(a, b, tokens, n, front, back, i, j);
    }
  }

  lemma {:induction false} SplitPlacement(a: string, b: string, tokens: seq<string>, at: seq<nat>) returns (n: nat)
    requires AreWords(tokens) && IsPlacement(a + " " + b, tokens, 0, at)
    ensures n <= |tokens| && Placeable(a, tokens[..n]) && Placeable(b, tokens[n..])
  {
    n := Before(tokens, at, |a|);
    var front := at[..n];
    forall i | 0 <= i < n ensures OccursAt(a, tokens[..n][i], front[i]) {
      assert tokens[..n][i] == tokens[i];
      OccursInFront(a, b, tokens[i], at[i]);
    }
    assert IsPlacement(a, tokens[..n], 0, front);
    forall i | n <= i < |tokens| ensures at[i] >= |a| + 1 {
      assert tokens[n] in tokens;
      WordIsOnOneSide(a, b, tokens[n], at[n]);
    }
    BackPlacement(a, b, tokens, at, n);
  }

  lemma BackPlacement(a: string, b: string, tokens: seq<string>, at: seq<nat>, n: nat)
    requires n <= |tokens| && IsPlacement(a + " " + b, tokens, 0, at)
    requires forall i :: n <= i < |at| ==> at[i] >= |a| + 1
    ensures Placeable(b, tokens[n..])
  {
    var back := Unshift(at[n..], |a| + 1);
    forall i | 0 <= i < |back| ensures OccursAt(b, tokens[n..][i], back[i]) {
      assert tokens[n..][i] == tokens[n + i];
      OccursBehind(a, b, tokens[n + i], back[i]);
    }
    assert IsPlacement(b, tokens[n..], 0, back);
  }

  /** Words are found in two texts joined by a blank exactly when they can be divided
      between the two, in order. */
  lemma PlaceableInBoth(a: string, b: string, tokens: seq<string>)
    requires AreWords(tokens)
    ensures Placeable(a + " " + b, tokens) <==>
            exists n: nat :: n <= |tokens| && Placeable(a, tokens[..n]) && Placeable(b, tokens[n..])
  {
    if Placeable(a + " " + b, tokens) {
      var at :| IsPlacement(a + " " + b, tokens, 0, at);
      var n := SplitPlacement(a, b, tokens, at);
    }
    if n: nat :| n <= |tokens| && Placeable(a, tokens[..n]) && Placeable(b, tokens[n..]) {
      var front :| IsPlacement(a, tokens[..n], 0, front);
      var back :| IsPlacement(b, tokens[n..], 0, back);
      JoinPlacements(a, b, tokens, n, front, back);
    }
  }

  lemma EmptyTextHoldsNothing(tokens: seq<string>)
    requires AreWords(tokens)
    ensures Placeable("", tokens) <==> tokens == []
  {
    if tokens == [] {
      assert IsPlacement("", tokens, 0, []);
    } else {
      assert tokens[0] in tokens;
    }
  }

  /** The lower-case form of an optional text; an absent one holds nothing. */
  function Lowered(text: Option<string>, lower: string -> string): string {
    if text.Some? then lower(text.value) else ""
  }

  /** Appending an optional text lets it hold a last part of the words. */
  lemma PlaceableAppended(s: string, extra: Option<string>, lower: string -> string, tokens: seq<string>)
    requires AreWords(tokens)
    ensures Placeable(Appended(s, extra, lower), tokens) <==>
            exists n: nat :: n <= |tokens| && Placeable(s, tokens[..n]) && Placeable(Lowered(extra, lower), tokens[n..])
  {
    if extra.Some? {
      PlaceableInBoth(s, lower(extra.value), tokens);
    } else {
      assert tokens[..|tokens|] == tokens && tokens[|tokens|..] == [];
      EmptyTextHoldsNothing(tokens[|tokens|..]);
      if n: nat :| n <= |tokens| && Placeable(s, tokens[..n]) && Placeable("", tokens[n..]) {
        assert AreWords(tokens[n..]);
        EmptyTextHoldsNothing(tokens[n..]);
      }
    }
  }

  function TitleOf(node: Node): Option<string> {
    if node.entry.Some? then node.entry.value.title else None
  }

  function HelpOf(node: Node): Option<string> {
    if node.entry.Some? then node.entry.value.help else None
  }

  /** The first words are in the path, dots read as blanks, the next ones in the title
      and the last ones in the help text. */
  ghost predicate HoldsInParts(path: string, title: string, help: string, tokens: seq<string>, n: nat, m: nat) {
    && n <= m <= |tokens|
    && Placeable(path, tokens[..n]) && Placeable(title, tokens[n..m]) && Placeable(help, tokens[m..])
  }

  /** A node's own texts hold the words in order. `path` is its full path with every dot
      replaced by a blank. */
  ghost predicate Holds(node: Node, path: string, tokens: seq<string>, lower: string -> string) {
    exists n: nat, m: nat ::
      HoldsInParts(lower(path), Lowered(TitleOf(node), lower), Lowered(HelpOf(node), lower), tokens, n, m)
  }

  predicate IsSpaced(path: string, dotted: string) {
    |path| == |dotted| && forall i :: 0 <= i < |path| ==> path[i] == if dotted[i] == '.' then ' ' else dotted[i]
  }

  lemma HaystackHolds(node: Node, path: string, tokens: seq<string>, lower: string -> string)
    requires AreWords(tokens) && IsSpaced(path, node.fullPath)
    ensures Placeable(Haystack(node, lower), tokens) <==> Holds(node, path, tokens, lower)
  {
    assert Spaced(node.fullPath) == path;
    var title, help := Lowered(TitleOf(node), lower), Lowered(HelpOf(node), lower);
    var front := Appended(lower(path), TitleOf(node), lower);
    assert Haystack(node, lower) == Appended(front, HelpOf(node), lower);
    PlaceableAppended(front, HelpOf(node), lower, tokens);
    forall m: nat | m <= |tokens|
      ensures Placeable(front, tokens[..m]) <==>
              exists n: nat :: n <= m && Placeable(lower(path), tokens[..n]) && Placeable(title, tokens[n..m])
    {
      PlaceableFront(lower(path), TitleOf(node), lower, tokens, m);
    }
    if m: nat :| m <= |tokens| && Placeable(front, tokens[..m]) && Placeable(help, tokens[m..]) {
      var n: nat :| n <= m && Placeable(lower(path), tokens[..n]) && Placeable(title, tokens[n..m]);
      assert HoldsInParts(lower(path), title, help, tokens, n, m);
    }
    if n: nat, m: nat :| HoldsInParts(lower(path), title, help, tokens, n, m) {
      assert Placeable(front, tokens[..m]);
    }
  }

  lemma PlaceableFront(s: string, extra: Option<string>, lower: string -> string, tokens: seq<string>, m: nat)
    requires AreWords(tokens) && m <= |tokens|
    ensures Placeable(Appended(s, extra, lower), tokens[..m]) <==>
            exists n: nat :: n <= m && Placeable(s, tokens[..n]) && Placeable(Lowered(extra, lower), tokens[n..m])
  {
    PlaceableAppended(s, extra, lower, tokens[..m]);
    forall n: nat | n <= m ensures tokens[..m][..n] == tokens[..n] && tokens[..m][n..] == tokens[n..m] {
    }
  }

  /** The node at `q` holds the words in its own texts. */
  ghost predicate HoldsAt(node: Node, q: seq<string>, tokens: seq<string>, lower: string -> string, spaced: string -> string) {
    && NodeAt(Some(node), q).Some?
    && var found := NodeAt(Some(node), q).value;
       Holds(found, spaced(found.fullPath), tokens, lower)
  }

  /** What the search shows, in terms of the schema's texts: a node is shown for some words
      exactly when it, or a node below it, has the first of them in its path, the next
      ones in its title and the rest in its help text, each in order and without
      overlap. */
  lemma ShownIffTextsHold(node: Node, tokens: seq<string>, lower: string -> string, spaced: string -> string)
    requires WellNamed(node) && AreWords(tokens)
    requires forall s :: IsSpaced(spaced(s), s)
    ensures NodeMatches(node, tokens, lower) <==> exists q :: HoldsAt(node, q, tokens, lower, spaced)
  {
    ShownIffSomeHit(node, tokens, lower);
    forall q ensures HitAt(node, q, tokens, lower) <==> HoldsAt(node, q, tokens, lower, spaced) {
      var found := NodeAt(Some(node), q);
      if found.Some? {
        HaystackHolds(found.value, spaced(found.value.fullPath), tokens, lower);
      }
    }
  }

  lemma OptionHit(found: Node, option: Entry, spaced: string, tokens: seq<string>, lower: string -> string, n: nat, m: nat)
    requires AreWords(tokens) && found.entry == Some(option) && IsSpaced(spaced, found.fullPath)
    requires HoldsInParts(lower(spaced), Lowered(option.title, lower), Lowered(option.help, lower), tokens, n, m)
    ensures Placeable(Haystack(found, lower), tokens)
  {
    assert TitleOf(found) == option.title && HelpOf(found) == option.help;
    assert HoldsInParts(lower(spaced), Lowered(TitleOf(found), lower), Lowered(HelpOf(found), lower), tokens, n, m);
    HaystackHolds(found, spaced, tokens, lower);
  }

  /** Every option of a schema is found by its own texts: words that the path, then the
      title, then the help text hold in order show every node on the way to the option,
      the root included. */
  lemma OptionIsFound(entries: seq<Entry>, path: string, depth: nat, tokens: seq<string>, lower: string -> string,
                      spaced: string, n: nat, m: nat)
    requires AreWords(tokens) && IsSpaced(spaced, path)
    requires LastLiveAtPath(entries, path).Some? && (path == "" || path[0] != '.')
    requires var option := LastLiveAtPath(entries, path).value;
             HoldsInParts(lower(spaced), Lowered(option.title, lower), Lowered(option.help, lower), tokens, n, m)
    requires depth <= |Split(path, '.')|
    ensures var above := NodeAt(Some(Tree(entries)), Split(path, '.')[..depth]);
            above.Some? && NodeMatches(above.value, tokens, lower)
  {
    assert HitAt(Tree(entries), Split(path, '.'), tokens, lower) by {
      OptionNode(entries, path);
      OptionHit(NodeAt(Some(Tree(entries)), Split(path, '.')).value, LastLiveAtPath(entries, path).value,
                spaced, tokens, lower, n, m);
    }
    HitsAreReachable(entries, Split(path, '.'), depth, tokens, lower);
  }

  // ---- the words of a filter -------------------------------------------------------

  /** `split_whitespace`: the pending word, then the words of the rest. */
  function WordsFrom(word: string, rest: string): seq<string>
    decreases |rest|
  {
    if rest == [] then (if word == [] then [] else [word])
    else if IsWhitespace(rest[0]) then (if word == [] then [] else [word]) + WordsFrom([], rest[1..])
    else WordsFrom(word + [rest[0]], rest[1..])
  }

  function Words(filter: string): seq<string> {
    WordsFrom("", filter)
  }

  lemma {:induction false} WordsFromAreWords(word: string, rest: string)
    requires word == [] || IsWord(word)
    ensures AreWords(WordsFrom(word, rest))
    decreases |rest|
  {
    if rest != [] {
      if IsWhitespace(rest[0]) {
        WordsFromAreWords([], rest[1..]);
      } else {
        WordsFromAreWords(word + [rest[0]], rest[1..]);
      }
    }
  }

  lemma {:induction false} WordsFromWord(word: string, more: string, rest: string)
    requires forall i :: 0 <= i < |more| ==> !IsWhitespace(more[i])
    ensures WordsFrom(word, more + rest) == WordsFrom(word + more, rest)
    decreases |more|
  {
    if more == [] {
      assert more + rest == rest && word + more == word;
    } else {
      assert (more + rest)[1..] == more[1..] + rest;
      assert word + [more[0]] + more[1..] == word + more;
      WordsFromWord(word + [more[0]], more[1..], rest);
    }
  }

  /** The words of a filter, by its shape: blanks in front do not matter, and a word ends
      at the next blank or at the end. Every one is a word. */
  lemma WordsOfFilter(blank: char, word: string, rest: string)
    requires IsWhitespace(blank) && IsWord(word)
    ensures Words("") == [] && Words([blank] + rest) == Words(rest)
    ensures Words(word) == [word] && Words(word + [blank] + rest) == [word] + Words(rest)
    ensures AreWords(Words(rest))
  {
    assert ([blank] + rest)[1..] == rest;
    assert word + [blank] + rest == word + ([blank] + rest) && "" + word == word && word + "" == word;
    WordsFromWord("", word, "");
    WordsFromWord("", word, [blank] + rest);
    WordsFromAreWords("", rest);
  }

  /** `node_matches`: the filter's words in lower case. */
  predicate FilterMatches(node: Node, filter: string, lower: string -> string) {
    var words := Words(filter);
    NodeMatches(node, seq(|words|, i requires 0 <= i < |words| => lower(words[i])), lower)
  }

  /** The filter box: with lower-casing that makes words of words, a node is shown exactly
      when it or a node below it holds the lower-case words of the filter in its texts. */
  lemma FilterShows(node: Node, filter: string, tokens: seq<string>, lower: string -> string, spaced: string -> string)
    requires WellNamed(node) && forall s :: IsSpaced(spaced(s), s)
    requires forall w :: IsWord(w) ==> IsWord(lower(w))
    requires |tokens| == |Words(filter)| && forall i :: 0 <= i < |tokens| ==> tokens[i] == lower(Words(filter)[i])
    ensures FilterMatches(node, filter, lower) <==> exists q :: HoldsAt(node, q, tokens, lower, spaced)
  {
    var words := Words(filter);
    WordsFromAreWords("", filter);
    assert tokens == seq(|words|, i requires 0 <= i < |words| => lower(words[i]));
    forall t | t in tokens ensures IsWord(t) {
      var i :| 0 <= i < |tokens| && tokens[i] == t;
      assert words[i] in words;
    }
    ShownIffTextsHold(node, tokens, lower, spaced);
  }
}
