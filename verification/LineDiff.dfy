/** The save bar's line diff (config-ui/src/config_save_bar.rs `unified_line_diff`). */
module LineDiff {
  import opened Prelude

  datatype Line = Add(text: TextLine) | Remove(text: TextLine) | Context(text: TextLine)

  /** Where the look-ahead found the two sides meet again. */
  datatype Sync = DraftAhead(distance: nat) | SavedAhead(distance: nat) | Lost

  const WINDOW: nat := 8

  /** The two files and a position in each. */
  datatype Cursor = Cursor(saved: seq<TextLine>, draft: seq<TextLine>, i: nat, j: nat) {
    predicate Valid() {
      i <= |saved| && j <= |draft|
    }

    predicate AtEnd() {
      i >= |saved| && j >= |draft|
    }

    function Left(): int {
      |saved| - i + |draft| - j
    }

    function Move(di: nat, dj: nat): Cursor {
      Cursor(saved, draft, i + di, j + dj)
    }

    /** The draft line `k` ahead equals the current saved line. */
    predicate DraftMeets(k: nat) {
      i < |saved| && j + k < |draft| && draft[j + k] == saved[i]
    }

    predicate SavedMeets(k: nat) {
      j < |draft| && i + k < |saved| && saved[i + k] == draft[j]
    }

    predicate Meets(k: nat) {
      DraftMeets(k) || SavedMeets(k)
    }
  }

  /** The look-ahead from distance `k` on: nearest first, the draft wins a tie; the code
      looks `WINDOW` lines ahead. */
  function Resync(c: Cursor, k: nat, window: nat): (sync: Sync)
    requires k <= window + 1
    ensures sync.DraftAhead? ==> k <= sync.distance && c.DraftMeets(sync.distance)
    ensures sync.SavedAhead? ==> k <= sync.distance && c.SavedMeets(sync.distance)
    decreases window + 1 - k
  {
    if k > window then Lost
    else if c.DraftMeets(k) then DraftAhead(k)
    else if c.SavedMeets(k) then SavedAhead(k)
    else Resync(c, k + 1, window)
  }

  /** The sync found is the nearest one within the window, and it is only missed if
      there is none. */
  lemma {:induction false} ResyncIsNearest(c: Cursor, k: nat, window: nat)
    requires k <= window + 1
    ensures match Resync(c, k, window)
            case DraftAhead(n) => n <= window && forall m :: k <= m < n ==> !c.Meets(m)
            case SavedAhead(n) => n <= window && !c.DraftMeets(n) && forall m :: k <= m < n ==> !c.Meets(m)
            case Lost => forall m :: k <= m <= window ==> !c.Meets(m)
    decreases window + 1 - k
  {
    if k <= window && !c.Meets(k) {
      ResyncIsNearest(c, k + 1, window);
    }
  }

  function Adds(lines: seq<TextLine>): seq<Line> {
    if lines == [] then [] else [Add(lines[0])] + Adds(lines[1..])
  }

  function Removes(lines: seq<TextLine>): seq<Line> {
    if lines == [] then [] else [Remove(lines[0])] + Removes(lines[1..])
  }

  /** What one round of the loop prints, and how far it moves each cursor. */
  datatype Round = Round(block: seq<Line>, di: nat, dj: nat)

  /** How the loop looks ahead when two lines differ. */
  type Look = Cursor -> Sync

  /** The round at two lines that differ, for whatever the look-ahead found. */
  function Jump(c: Cursor, sync: Sync): (round: Round)
    requires c.i < |c.saved| && c.j < |c.draft|
    ensures c.Move(round.di, round.dj).Valid() && round.di + round.dj > 0
  {
    if sync.DraftAhead? && sync.distance > 0 && c.j + sync.distance <= |c.draft| then
      Round(Adds(c.draft[c.j..c.j + sync.distance]), 0, sync.distance)
    else if sync.SavedAhead? && sync.distance > 0 && c.i + sync.distance <= |c.saved| then
      Round(Removes(c.saved[c.i..c.i + sync.distance]), sync.distance, 0)
    else
      Round([Remove(c.saved[c.i])] + [Add(c.draft[c.j])], 1, 1)
  }

  function NextRound(c: Cursor, look: Look): (round: Round)
    requires c.Valid() && !c.AtEnd()
    ensures c.Move(round.di, round.dj).Valid() && round.di + round.dj > 0
  {
    if c.j == |c.draft| then Round([Remove(c.saved[c.i])], 1, 0)
    else if c.i == |c.saved| then Round([Add(c.draft[c.j])], 0, 1)
    else if c.saved[c.i] == c.draft[c.j] then Round([Context(c.saved[c.i])], 1, 1)
    else Jump(c, look(c))
  }

  /** The diff of what is left on both sides. */
  function DiffFrom(c: Cursor, look: Look): seq<Line>
    requires c.Valid()
    decreases c.Left()
  {
    if c.AtEnd() then []
    else
      var round := NextRound(c, look);
      round.block + DiffFrom(c.Move(round.di, round.dj), look)
  }

  /** The code's look-ahead: the nearest sync within the window. */
  function Nearest(window: nat): (look: Look)
    ensures forall c :: look(c) == Resync(c, 1, window)
  {
    (c: Cursor) => Resync(c, 1, window)
  }

  function Diff(saved: seq<TextLine>, draft: seq<TextLine>): seq<Line> {
    DiffFrom(Cursor(saved, draft, 0, 0), Nearest(WINDOW))
  }

  // ---- replaying --------------------------------------------------------------------

  /** The old side of a diff: context and removed lines in order. */
  function OldSide(diff: seq<Line>): seq<TextLine> {
    if diff == [] then []
    else (if diff[0].Add? then [] else [diff[0].text]) + OldSide(diff[1..])
  }

  /** The new side of a diff: context and added lines in order. */
  function NewSide(diff: seq<Line>): seq<TextLine> {
    if diff == [] then []
    else (if diff[0].Remove? then [] else [diff[0].text]) + NewSide(diff[1..])
  }

  function ContextLines(diff: seq<Line>): seq<TextLine> {
    if diff == [] then []
    else (if diff[0].Context? then [diff[0].text] else []) + ContextLines(diff[1..])
  }

  lemma {:induction false} OldSideAppend(a: seq<Line>, b: seq<Line>)
    ensures OldSide(a + b) == OldSide(a) + OldSide(b)
    decreases |a|
  {
    if a == [] {
      assert a + b == b;
    } else {
      assert (a + b)[1..] == a[1..] + b;
      OldSideAppend(a[1..], b);
    }
  }

  lemma {:induction false} NewSideAppend(a: seq<Line>, b: seq<Line>)
    ensures NewSide(a + b) == NewSide(a) + NewSide(b)
    decreases |a|
  {
    if a == [] {
      assert a + b == b;
    } else {
      assert (a + b)[1..] == a[1..] + b;
      NewSideAppend(a[1..], b);
    }
  }

  lemma {:induction false} SidesOfBlocks(lines: seq<TextLine>)
    ensures OldSide(Adds(lines)) == [] && NewSide(Adds(lines)) == lines
    ensures OldSide(Removes(lines)) == lines && NewSide(Removes(lines)) == []
    decreases |lines|
  {
    if lines != [] {
      SidesOfBlocks(lines[1..]);
      assert Adds(lines)[1..] == Adds(lines[1..]) && Removes(lines)[1..] == Removes(lines[1..]);
    }
  }

  lemma SidesOfOne(line: Line)
    ensures OldSide([line]) == if line.Add? then [] else [line.text]
    ensures NewSide([line]) == if line.Remove? then [] else [line.text]
  {
    assert [line][1..] == [];
  }

  lemma SidesOfPair(a: TextLine, b: TextLine)
    ensures OldSide([Remove(a)] + [Add(b)]) == [a] && NewSide([Remove(a)] + [Add(b)]) == [b]
  {
    SidesOfOne(Remove(a));
    SidesOfOne(Add(b));
    OldSideAppend([Remove(a)], [Add(b)]);
    NewSideAppend([Remove(a)], [Add(b)]);
  }

  lemma SliceOfOne(s: seq<TextLine>, i: nat)
    requires i < |s|
    ensures s[i..i + 1] == [s[i]] && s[i..i] == []
  {
  }

  /** A round prints exactly the lines it moves over. */
  predicate PrintsItsLines(c: Cursor, round: Round)
    requires c.Move(round.di, round.dj).Valid()
  {
    && OldSide(round.block) == c.saved[c.i..c.i + round.di]
    && NewSide(round.block) == c.draft[c.j..c.j + round.dj]
  }

  lemma RestOfOneSide(c: Cursor, look: Look)
    requires c.Valid() && !c.AtEnd() && (c.i == |c.saved| || c.j == |c.draft|)
    ensures PrintsItsLines(c, NextRound(c, look))
  {
    if c.j == |c.draft| {
      SidesOfOne(Remove(c.saved[c.i]));
      SliceOfOne(c.saved, c.i);
    } else {
      SidesOfOne(Add(c.draft[c.j]));
      SliceOfOne(c.draft, c.j);
    }
  }

  lemma EqualLines(c: Cursor, look: Look)
    requires c.i < |c.saved| && c.j < |c.draft| && c.saved[c.i] == c.draft[c.j]
    ensures PrintsItsLines(c, NextRound(c, look))
  {
    SliceOfOne(c.saved, c.i);
    SliceOfOne(c.draft, c.j);
    SidesOfOne(Context(c.saved[c.i]));
  }

  lemma AddsPrint(c: Cursor, k: nat)
    requires c.i <= |c.saved| && c.j + k <= |c.draft|
    ensures PrintsItsLines(c, Round(Adds(c.draft[c.j..c.j + k]), 0, k))
  {
    SidesOfBlocks(c.draft[c.j..c.j + k]);
  }

  lemma RemovesPrint(c: Cursor, k: nat)
    requires c.i + k <= |c.saved| && c.j <= |c.draft|
    ensures PrintsItsLines(c, Round(Removes(c.saved[c.i..c.i + k]), k, 0))
  {
    SidesOfBlocks(c.saved[c.i..c.i + k]);
  }

  lemma PairPrints(c: Cursor)
    requires c.i < |c.saved| && c.j < |c.draft|
    ensures PrintsItsLines(c, Round([Remove(c.saved[c.i])] + [Add(c.draft[c.j])], 1, 1))
  {
    SidesOfPair(c.saved[c.i], c.draft[c.j]);
    SliceOfOne(c.saved, c.i);
    SliceOfOne(c.draft, c.j);
  }

  lemma DifferentLines(c: Cursor, sync: Sync)
    requires c.i < |c.saved| && c.j < |c.draft|
    ensures PrintsItsLines(c, Jump(c, sync))
  {
    if sync.DraftAhead? && sync.distance > 0 && c.j + sync.distance <= |c.draft| {
      AddsPrint(c, sync.distance);
    } else if sync.SavedAhead? && sync.distance > 0 && c.i + sync.distance <= |c.saved| {
      RemovesPrint(c, sync.distance);
    } else {
      PairPrints(c);
    }
  }

  lemma SidesOfRound(c: Cursor, look: Look)
    requires c.Valid() && !c.AtEnd()
    ensures PrintsItsLines(c, NextRound(c, look))
  {
    if c.i == |c.saved| || c.j == |c.draft| {
      RestOfOneSide(c, look);
    } else if c.saved[c.i] == c.draft[c.j] {
      EqualLines(c, look);
    } else {
      DifferentLines(c, look(c));
    }
  }

  lemma {:induction false} ReplaysFrom(c: Cursor, look: Look)
    requires c.Valid()
    ensures OldSide(DiffFrom(c, look)) == c.saved[c.i..]
    ensures NewSide(DiffFrom(c, look)) == c.draft[c.j..]
    decreases c.Left()
  {
    if !c.AtEnd() {
      var round := NextRound(c, look);
      SidesOfRound(c, look);
      ReplaysFrom(c.Move(round.di, round.dj), look);
      SidesJoin(c, round, DiffFrom(c.Move(round.di, round.dj), look));
    }
  }

  lemma SidesJoin(c: Cursor, round: Round, rest: seq<Line>)
    requires c.Move(round.di, round.dj).Valid() && PrintsItsLines(c, round)
    requires OldSide(rest) == c.saved[c.i + round.di..] && NewSide(rest) == c.draft[c.j + round.dj..]
    ensures OldSide(round.block + rest) == c.saved[c.i..] && NewSide(round.block + rest) == c.draft[c.j..]
  {
    OldSidesJoin(round.block, rest, c.saved, c.i, c.i + round.di);
    NewSidesJoin(round.block, rest, c.draft, c.j, c.j + round.dj);
  }

  lemma OldSidesJoin(block: seq<Line>, rest: seq<Line>, s: seq<TextLine>, i: nat, k: nat)
    requires i <= k <= |s| && OldSide(block) == s[i..k] && OldSide(rest) == s[k..]
    ensures OldSide(block + rest) == s[i..]
  {
    OldSideAppend(block, rest);
    SlicesJoin(s, i, k);
  }

  lemma NewSidesJoin(block: seq<Line>, rest: seq<Line>, s: seq<TextLine>, i: nat, k: nat)
    requires i <= k <= |s| && NewSide(block) == s[i..k] && NewSide(rest) == s[k..]
    ensures NewSide(block + rest) == s[i..]
  {
    NewSideAppend(block, rest);
    SlicesJoin(s, i, k);
  }

  lemma SlicesJoin(s: seq<TextLine>, i: nat, k: nat)
    requires i <= k <= |s|
    ensures s[i..k] + s[k..] == s[i..]
  {
  }

  /** Replaying the diff gives back both inputs. */
  lemma Replays(saved: seq<TextLine>, draft: seq<TextLine>)
    ensures OldSide(Diff(saved, draft)) == saved
    ensures NewSide(Diff(saved, draft)) == draft
  {
    ReplaysFrom(Cursor(saved, draft, 0, 0), Nearest(WINDOW));
  }

  predicate AllContext(diff: seq<Line>) {
    forall i :: 0 <= i < |diff| ==> diff[i].Context?
  }

  lemma {:induction false} AllContextSides(diff: seq<Line>)
    requires AllContext(diff)
    ensures OldSide(diff) == NewSide(diff)
    decreases |diff|
  {
    if diff != [] {
      AllContextSides(diff[1..]);
    }
  }

  // ---- what stays unmarked -----------------------------------------------------------

  lemma QuietStep(c: Cursor, look: Look)
    requires c.i < |c.saved| && c.j < |c.draft| && c.saved[c.i] == c.draft[c.j]
    ensures DiffFrom(c, look) == [Context(c.saved[c.i])] + DiffFrom(c.Move(1, 1), look)
  {
  }

  lemma {:induction false} SharedLinesStayQuiet(c: Cursor, look: Look, n: nat)
    requires c.Valid() && c.i == c.j && c.i + n <= |c.saved| && c.i + n <= |c.draft|
    requires forall k :: c.i <= k < c.i + n ==> c.saved[k] == c.draft[k]
    ensures |DiffFrom(c, look)| >= n && DiffFrom(c, look)[n..] == DiffFrom(c.Move(n, n), look)
    ensures forall k :: 0 <= k < n ==> DiffFrom(c, look)[k] == Context(c.saved[c.i + k])
    decreases n
  {
    if n > 0 {
      var next := c.Move(1, 1);
      SharedLinesStayQuiet(next, look, n - 1);
      QuietStep(c, look);
      assert next.Move(n - 1, n - 1) == c.Move(n, n);
    }
  }

  /** A shared beginning is never marked, whatever follows. */
  lemma SharedPrefixStaysQuiet(saved: seq<TextLine>, draft: seq<TextLine>, n: nat)
    requires n <= |saved| && n <= |draft| && saved[..n] == draft[..n]
    ensures |Diff(saved, draft)| >= n && Diff(saved, draft)[n..] == DiffFrom(Cursor(saved, draft, n, n), Nearest(WINDOW))
    ensures forall k :: 0 <= k < n ==> Diff(saved, draft)[k] == Context(saved[k])
  {
    forall k | 0 <= k < n ensures saved[k] == draft[k] {
      assert saved[..n][k] == draft[..n][k];
    }
    SharedLinesStayQuiet(Cursor(saved, draft, 0, 0), Nearest(WINDOW), n);
  }

  // ---- what the look-ahead does to the diff ------------------------------------------------

  /** Two cursors with the same lines left. */
  ghost predicate SameRest(a: Cursor, b: Cursor) {
    a.Valid() && b.Valid() && a.saved[a.i..] == b.saved[b.i..] && a.draft[a.j..] == b.draft[b.j..]
  }

  lemma SameRestAt(a: Cursor, b: Cursor, k: nat)
    requires SameRest(a, b)
    ensures |a.saved| - a.i == |b.saved| - b.i && |a.draft| - a.j == |b.draft| - b.j
    ensures a.i + k < |a.saved| ==> a.saved[a.i + k] == b.saved[b.i + k]
    ensures a.j + k < |a.draft| ==> a.draft[a.j + k] == b.draft[b.j + k]
  {
    assert |a.saved[a.i..]| == |b.saved[b.i..]| && |a.draft[a.j..]| == |b.draft[b.j..]|;
    if a.i + k < |a.saved| {
      assert a.saved[a.i..][k] == b.saved[b.i..][k];
    }
    if a.j + k < |a.draft| {
      assert a.draft[a.j..][k] == b.draft[b.j..][k];
    }
  }

  lemma {:induction false} SameResync(a: Cursor, b: Cursor, k: nat, window: nat)
    requires SameRest(a, b) && k <= window + 1
    ensures Resync(a, k, window) == Resync(b, k, window)
    decreases window + 1 - k
  {
    if k <= window {
      SameMeetings(a, b, k);
      SameResync(a, b, k + 1, window);
    }
  }

  lemma SameMeetings(a: Cursor, b: Cursor, k: nat)
    requires SameRest(a, b)
    ensures a.DraftMeets(k) == b.DraftMeets(k) && a.SavedMeets(k) == b.SavedMeets(k)
  {
    SameRestAt(a, b, 0);
    SameRestAt(a, b, k);
  }

  lemma SameJump(a: Cursor, b: Cursor, sync: Sync)
    requires SameRest(a, b) && a.i < |a.saved| && a.j < |a.draft|
    ensures b.i < |b.saved| && b.j < |b.draft| && Jump(a, sync) == Jump(b, sync)
  {
    SameRestAt(a, b, 0);
    if sync.DraftAhead? && a.j + sync.distance <= |a.draft| {
      assert a.draft[a.j..a.j + sync.distance] == a.draft[a.j..][..sync.distance];
      assert b.draft[b.j..b.j + sync.distance] == b.draft[b.j..][..sync.distance];
    } else if sync.SavedAhead? && a.i + sync.distance <= |a.saved| {
      assert a.saved[a.i..a.i + sync.distance] == a.saved[a.i..][..sync.distance];
      assert b.saved[b.i..b.i + sync.distance] == b.saved[b.i..][..sync.distance];
    }
  }

  lemma SameNextRound(a: Cursor, b: Cursor, window: nat)
    requires SameRest(a, b) && !a.AtEnd()
    ensures !b.AtEnd() && NextRound(a, Nearest(window)) == NextRound(b, Nearest(window))
  {
    SameRestAt(a, b, 0);
    if a.i < |a.saved| && a.j < |a.draft| {
      SameResync(a, b, 1, window);
      SameJump(a, b, Resync(a, 1, window));
    }
  }

  lemma SameMove(a: Cursor, b: Cursor, di: nat, dj: nat)
    requires SameRest(a, b) && a.Move(di, dj).Valid()
    ensures SameRest(a.Move(di, dj), b.Move(di, dj))
  {
    SameRestAt(a, b, 0);
    assert a.saved[a.i + di..] == a.saved[a.i..][di..] && b.saved[b.i + di..] == b.saved[b.i..][di..];
    assert a.draft[a.j + dj..] == a.draft[a.j..][dj..] && b.draft[b.j + dj..] == b.draft[b.j..][dj..];
  }

  /** The diff looks at nothing behind its cursors. */
  lemma {:induction false} SameDiff(a: Cursor, b: Cursor, window: nat)
    requires SameRest(a, b)
    ensures DiffFrom(a, Nearest(window)) == DiffFrom(b, Nearest(window))
    decreases a.Left()
  {
    SameRestAt(a, b, 0);
    if !a.AtEnd() {
      SameNextRound(a, b, window);
      var round := NextRound(a, Nearest(window));
      SameMove(a, b, round.di, round.dj);
      SameDiff(a.Move(round.di, round.dj), b.Move(round.di, round.dj), window);
    }
  }

  lemma DiffOfRest(saved: seq<TextLine>, draft: seq<TextLine>, i: nat, j: nat)
    requires i <= |saved| && j <= |draft|
    ensures DiffFrom(Cursor(saved, draft, i, j), Nearest(WINDOW)) == Diff(saved[i..], draft[j..])
  {
    SameDiff(Cursor(saved, draft, i, j), Cursor(saved[i..], draft[j..], 0, 0), WINDOW);
  }

  /** Neither file's first line turns up in the other fewer than `k` lines ahead. */
  predicate ApartBelow(saved: seq<TextLine>, draft: seq<TextLine>, k: nat)
    requires saved != [] && draft != []
  {
    forall m :: 1 <= m < k ==>
      && (m < |draft| ==> draft[m] != saved[0])
      && (m < |saved| ==> saved[m] != draft[0])
  }

  lemma {:induction false} AddsOf(lines: seq<TextLine>)
    ensures |Adds(lines)| == |lines| && forall i :: 0 <= i < |lines| ==> Adds(lines)[i] == Add(lines[i])
    ensures |Removes(lines)| == |lines| && forall i :: 0 <= i < |lines| ==> Removes(lines)[i] == Remove(lines[i])
    decreases |lines|
  {
    if lines != [] {
      AddsOf(lines[1..]);
    }
  }

  /** The first round at two different lines, for each outcome of the look-ahead. */
  lemma FirstRound(saved: seq<TextLine>, draft: seq<TextLine>, sync: Sync)
    requires saved != [] && draft != [] && saved[0] != draft[0]
    requires Resync(Cursor(saved, draft, 0, 0), 1, WINDOW) == sync
    ensures Diff(saved, draft) ==
            match sync
            case DraftAhead(k) => Adds(draft[..k]) + Diff(saved, draft[k..])
            case SavedAhead(k) => Removes(saved[..k]) + Diff(saved[k..], draft)
            case Lost => [Remove(saved[0])] + [Add(draft[0])] + Diff(saved[1..], draft[1..])
  {
    var c := Cursor(saved, draft, 0, 0);
    var round := NextRound(c, Nearest(WINDOW));
    assert round == Jump(c, sync);
    assert saved[0..] == saved && draft[0..] == draft;
    assert Diff(saved, draft) == round.block + DiffFrom(c.Move(round.di, round.dj), Nearest(WINDOW));
    DiffOfRest(saved, draft, round.di, round.dj);
  }

  /** The whole of a file is on one side where the other has nothing left. */
  lemma {:induction false} OneSided(lines: seq<TextLine>)
    ensures |Diff(lines, [])| == |lines| && forall i :: 0 <= i < |lines| ==> Diff(lines, [])[i] == Remove(lines[i])
    ensures |Diff([], lines)| == |lines| && forall i :: 0 <= i < |lines| ==> Diff([], lines)[i] == Add(lines[i])
    decreases |lines|
  {
    if lines != [] {
      var none: seq<TextLine> := [];
      OneSided(lines[1..]);
      DiffOfRest(lines, none, 1, 0);
      DiffOfRest(none, lines, 0, 1);
      assert none[0..] == none;
      assert Diff(lines, none) == [Remove(lines[0])] + Diff(lines[1..], none);
      assert Diff(none, lines) == [Add(lines[0])] + Diff(none, lines[1..]);
    }
  }

  /** A shared beginning is context, and the diff goes on as if it were not there. */
  lemma SharedPrefixIsDropped(shared: seq<TextLine>, saved: seq<TextLine>, draft: seq<TextLine>)
    ensures var diff := Diff(shared + saved, shared + draft);
            && |diff| >= |shared|
            && (forall i :: 0 <= i < |shared| ==> diff[i] == Context(shared[i]))
            && diff[|shared|..] == Diff(saved, draft)
  {
    var n := |shared|;
    assert (shared + saved)[..n] == shared == (shared + draft)[..n];
    SharedPrefixStaysQuiet(shared + saved, shared + draft, n);
    DiffOfRest(shared + saved, shared + draft, n, n);
    assert (shared + saved)[n..] == saved && (shared + draft)[n..] == draft;
  }

  /** Lines were added: the saved line turns up `k` lines ahead in the draft, neither
      line turns up sooner. Exactly the lines before it are added, and the two sides
      go on together from it. */
  lemma AddedLinesAreAdded(saved: seq<TextLine>, draft: seq<TextLine>, k: nat)
    requires saved != [] && draft != [] && saved[0] != draft[0]
    requires 1 <= k <= 8 && k < |draft| && draft[k] == saved[0] && ApartBelow(saved, draft, k)
    ensures var diff := Diff(saved, draft);
            && |diff| > k
            && (forall i :: 0 <= i < k ==> diff[i] == Add(draft[i]))
            && diff[k] == Context(saved[0])
            && diff[k + 1..] == Diff(saved[1..], draft[k + 1..])
  {
    ResyncMeets(saved, draft, k);
    FirstRound(saved, draft, DraftAhead(k));
    AddsOf(draft[..k]);
    SameHead(saved, draft[k..]);
    assert draft[k..][1..] == draft[k + 1..];
  }

  /** Lines were removed: the same with the sides exchanged, where the draft does not
      meet at the same distance. */
  lemma RemovedLinesAreRemoved(saved: seq<TextLine>, draft: seq<TextLine>, k: nat)
    requires saved != [] && draft != [] && saved[0] != draft[0]
    requires 1 <= k <= 8 && k < |saved| && saved[k] == draft[0] && ApartBelow(saved, draft, k)
    requires k < |draft| ==> draft[k] != saved[0]
    ensures var diff := Diff(saved, draft);
            && |diff| > k
            && (forall i :: 0 <= i < k ==> diff[i] == Remove(saved[i]))
            && diff[k] == Context(draft[0])
            && diff[k + 1..] == Diff(saved[k + 1..], draft[1..])
  {
    ResyncMeets(saved, draft, k);
    FirstRound(saved, draft, SavedAhead(k));
    AddsOf(saved[..k]);
    SameHead(saved[k..], draft);
    assert saved[k..][1..] == saved[k + 1..];
  }

  /** A line was changed: neither turns up in the next 8 lines of the other side. */
  lemma ChangedLineIsReplaced(saved: seq<TextLine>, draft: seq<TextLine>)
    requires saved != [] && draft != [] && saved[0] != draft[0] && ApartBelow(saved, draft, 9)
    ensures Diff(saved, draft) == [Remove(saved[0]), Add(draft[0])] + Diff(saved[1..], draft[1..])
  {
    var c := Cursor(saved, draft, 0, 0);
    ResyncIsNearest(c, 1, WINDOW);
    assert Resync(c, 1, WINDOW) == Lost;
    FirstRound(saved, draft, Lost);
    assert [Remove(saved[0])] + [Add(draft[0])] == [Remove(saved[0]), Add(draft[0])];
  }

  lemma ResyncMeets(saved: seq<TextLine>, draft: seq<TextLine>, k: nat)
    requires saved != [] && draft != [] && 1 <= k <= 8 && ApartBelow(saved, draft, k)
    requires Cursor(saved, draft, 0, 0).Meets(k)
    ensures Resync(Cursor(saved, draft, 0, 0), 1, WINDOW) ==
            if k < |draft| && draft[k] == saved[0] then DraftAhead(k) else SavedAhead(k)
  {
    var c := Cursor(saved, draft, 0, 0);
    ResyncIsNearest(c, 1, WINDOW);
    assert forall m :: 1 <= m < k ==> !c.Meets(m);
  }

  lemma SameHead(saved: seq<TextLine>, draft: seq<TextLine>)
    requires saved != [] && draft != [] && saved[0] == draft[0]
    ensures Diff(saved, draft) == [Context(saved[0])] + Diff(saved[1..], draft[1..])
  {
    QuietStep(Cursor(saved, draft, 0, 0), Nearest(WINDOW));
    DiffOfRest(saved, draft, 1, 1);
  }

  /** Nothing is marked exactly when nothing changed. */
  lemma QuietIffEqual(saved: seq<TextLine>, draft: seq<TextLine>)
    ensures AllContext(Diff(saved, draft)) <==> saved == draft
  {
    Replays(saved, draft);
    if AllContext(Diff(saved, draft)) {
      AllContextSides(Diff(saved, draft));
    }
    if saved == draft {
      SharedPrefixStaysQuiet(saved, draft, |saved|);
      assert |Diff(saved, draft)| == |saved|;
    }
  }

  /** `picks` are the positions, in increasing order, at which `whole` spells `part`. */
  predicate Selects(part: seq<TextLine>, whole: seq<TextLine>, picks: seq<nat>) {
    && |picks| == |part|
    && (forall i :: 0 <= i < |picks| ==> picks[i] < |whole| && whole[picks[i]] == part[i])
    && (forall i, j :: 0 <= i < j < |picks| ==> picks[i] < picks[j])
  }

  ghost predicate IsSubsequence(part: seq<TextLine>, whole: seq<TextLine>) {
    exists picks :: Selects(part, whole, picks)
  }

  function Shifted(picks: seq<nat>): (moved: seq<nat>)
    ensures |moved| == |picks| && forall i :: 0 <= i < |picks| ==> moved[i] == picks[i] + 1
  {
    seq(|picks|, i requires 0 <= i < |picks| => picks[i] + 1)
  }

  lemma SelectsSkip(part: seq<TextLine>, head: TextLine, whole: seq<TextLine>, picks: seq<nat>)
    requires Selects(part, whole, picks)
    ensures Selects(part, [head] + whole, Shifted(picks))
  {
  }

  lemma SelectsHead(part: seq<TextLine>, head: TextLine, whole: seq<TextLine>, moved: seq<nat>)
    requires Selects(part, [head] + whole, moved) && forall i :: 0 <= i < |moved| ==> moved[i] > 0
    ensures Selects([head] + part, [head] + whole, [0] + moved)
  {
  }

  lemma SubsequenceSkip(part: seq<TextLine>, head: TextLine, whole: seq<TextLine>)
    requires IsSubsequence(part, whole)
    ensures IsSubsequence(part, [head] + whole)
    ensures IsSubsequence([head] + part, [head] + whole)
  {
    var picks :| Selects(part, whole, picks);
    SelectsSkip(part, head, whole, picks);
    SelectsHead(part, head, whole, Shifted(picks));
  }

  lemma {:induction false} ContextIsCommon(diff: seq<Line>)
    ensures IsSubsequence(ContextLines(diff), OldSide(diff))
    ensures IsSubsequence(ContextLines(diff), NewSide(diff))
    decreases |diff|
  {
    if diff == [] {
      assert Selects([], [], []);
    } else {
      ContextIsCommon(diff[1..]);
      var common := ContextLines(diff[1..]);
      SubsequenceSkip(common, diff[0].text, OldSide(diff[1..]));
      SubsequenceSkip(common, diff[0].text, NewSide(diff[1..]));
      assert [] + common == common;
      assert [] + OldSide(diff[1..]) == OldSide(diff[1..]) && [] + NewSide(diff[1..]) == NewSide(diff[1..]);
    }
  }

  /** The unmarked lines are a common subsequence of both files. */
  lemma ContextIsCommonSubsequence(saved: seq<TextLine>, draft: seq<TextLine>)
    ensures IsSubsequence(ContextLines(Diff(saved, draft)), saved)
    ensures IsSubsequence(ContextLines(Diff(saved, draft)), draft)
  {
    Replays(saved, draft);
    ContextIsCommon(Diff(saved, draft));
  }

  // ---- the loop ----------------------------------------------------------------------

  /** The two-cursor loop. */
  method UnifiedLineDiff(saved: seq<TextLine>, draft: seq<TextLine>) returns (out: seq<Line>)
    ensures out == Diff(saved, draft)
    ensures OldSide(out) == saved && NewSide(out) == draft
    ensures AllContext(out) <==> saved == draft
  {
    out := RunLoop(saved, draft, WINDOW);
    Replays(saved, draft);
    QuietIffEqual(saved, draft);
  }

  method RunLoop(saved: seq<TextLine>, draft: seq<TextLine>, window: nat) returns (out: seq<Line>)
    ensures out == DiffFrom(Cursor(saved, draft, 0, 0), Nearest(window))
  {
    out := [];
    var i, j := 0, 0;
    ghost var goal := Whole([], saved, draft, 0, 0, Nearest(window));
    while i < |saved| || j < |draft|
      invariant 0 <= i <= |saved| && 0 <= j <= |draft|
      invariant Whole(out, saved, draft, i, j, Nearest(window)) == goal
      decreases |saved| - i + |draft| - j
    {
      var round := Advance(saved, draft, i, j, window);
      WholeStep(out, saved, draft, i, j, Nearest(window), round);
      out := out + round.block;
      i, j := i + round.di, j + round.dj;
    }
    WholeAtEnds(out, saved, draft, Nearest(window));
  }

  /** A finished diff. */
  datatype Printout = Printout(lines: seq<Line>)

  /** What is printed so far, followed by what the rest will print. */
  function Whole(out: seq<Line>, saved: seq<TextLine>, draft: seq<TextLine>, i: nat, j: nat, look: Look): Printout
    requires i <= |saved| && j <= |draft|
  {
    Printout(out + DiffFrom(Cursor(saved, draft, i, j), look))
  }

  lemma WholeStep(out: seq<Line>, saved: seq<TextLine>, draft: seq<TextLine>, i: nat, j: nat, look: Look, round: Round)
    requires i <= |saved| && j <= |draft| && (i < |saved| || j < |draft|)
    requires round == NextRound(Cursor(saved, draft, i, j), look)
    ensures i + round.di <= |saved| && j + round.dj <= |draft| && round.di + round.dj > 0
    ensures Whole(out, saved, draft, i, j, look) == Whole(out + round.block, saved, draft, i + round.di, j + round.dj, look)
  {
    var c := Cursor(saved, draft, i, j);
    AppendAssociates(out, round.block, DiffFrom(c.Move(round.di, round.dj), look));
  }

  lemma WholeAtEnds(out: seq<Line>, saved: seq<TextLine>, draft: seq<TextLine>, look: Look)
    ensures Whole([], saved, draft, 0, 0, look).lines == DiffFrom(Cursor(saved, draft, 0, 0), look)
    ensures Whole(out, saved, draft, |saved|, |draft|, look).lines == out
  {
  }

  lemma AppendAssociates(a: seq<Line>, b: seq<Line>, c: seq<Line>)
    ensures (a + b) + c == a + (b + c)
  {
  }

  /** The body of the loop. */
  method Advance(saved: seq<TextLine>, draft: seq<TextLine>, i: nat, j: nat, window: nat) returns (round: Round)
    requires i <= |saved| && j <= |draft| && (i < |saved| || j < |draft|)
    ensures round == NextRound(Cursor(saved, draft, i, j), Nearest(window))
  {
    if i < |saved| && j < |draft| {
      if saved[i] == draft[j] {
        round := Round([Context(saved[i])], 1, 1);
      } else {
        var found := LookAhead(saved, draft, i, j, window);
        match found {
          case DraftAhead(k) => round := Round(Adds(draft[j..j + k]), 0, k);
          case SavedAhead(k) => round := Round(Removes(saved[i..i + k]), k, 0);
          case Lost => round := Round([Remove(saved[i])] + [Add(draft[j])], 1, 1);
        }
      }
    } else if i < |saved| {
      round := Round([Remove(saved[i])], 1, 0);
    } else {
      round := Round([Add(draft[j])], 0, 1);
    }
  }

  /** The look-ahead loop: nearest distance first, draft side before saved side. */
  method LookAhead(saved: seq<TextLine>, draft: seq<TextLine>, i: nat, j: nat, window: nat) returns (found: Sync)
    requires i < |saved| && j < |draft|
    ensures found == Resync(Cursor(saved, draft, i, j), 1, window)
  {
    var k := 1;
    while k <= window
      invariant 1 <= k <= window + 1
      invariant Resync(Cursor(saved, draft, i, j), 1, window) == Resync(Cursor(saved, draft, i, j), k, window)
    {
      if j + k < |draft| && draft[j + k] == saved[i] {
        return DraftAhead(k);
      }
      if i + k < |saved| && saved[i + k] == draft[j] {
        return SavedAhead(k);
      }
      k := k + 1;
    }
    return Lost;
  }
}
