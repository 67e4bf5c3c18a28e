/** Version comparison and release selection (daemon/src/usb_update.rs) and the
    self-updater's own comparison (daemon/src/self_update.rs). */
module Versions {
  import opened Prelude
  import opened Documents

  /** `split` at any of the given characters. */
  function Pieces(s: string, seps: set<char>): (pieces: seq<string>)
    ensures pieces != []
  {
    if s == [] then
      [""]
    else
      var rest := Pieces(s[1..], seps);
      if s[0] in seps then [""] + rest else [[s[0]] + rest[0]] + rest[1..]
  }

  /** `trim_start_matches('v')` */
  function TrimV(s: string): string {
    if s != [] && s[0] == 'v' then TrimV(s[1..]) else s
  }

  function NumberOrZero(piece: string): nat {
    var n := ParseU64(piece);
    if n.Some? then n.value else 0
  }

  function Numbers(pieces: seq<string>): (numbers: seq<nat>)
    ensures |numbers| == |pieces|
    ensures forall i :: 0 <= i < |pieces| ==> numbers[i] == NumberOrZero(pieces[i])
  {
    seq(|pieces|, i requires 0 <= i < |pieces| => NumberOrZero(pieces[i]))
  }

  /** The numeric components `is_newer` compares. */
  function Parts(version: string): seq<nat> {
    Numbers(Pieces(TrimV(version), {'.', '-'}))
  }

  /** Component `i`, zero past the end. */
  function Component(parts: seq<nat>, i: nat): nat {
    if i < |parts| then parts[i] else 0
  }

  predicate SameUpTo(a: seq<nat>, b: seq<nat>, n: nat) {
    forall i: nat :: i < n ==> Component(a, i) == Component(b, i)
  }

  predicate LessAt(a: seq<nat>, b: seq<nat>, i: nat) {
    SameUpTo(a, b, i) && Component(a, i) < Component(b, i)
  }

  /** `b` is greater at the first component in which the zero-padded versions differ. */
  ghost predicate Less(a: seq<nat>, b: seq<nat>) {
    exists i: nat :: LessAt(a, b, i)
  }

  ghost predicate Same(a: seq<nat>, b: seq<nat>) {
    forall i: nat :: Component(a, i) == Component(b, i)
  }

  ghost predicate Newer(current: string, candidate: string) {
    Less(Parts(current), Parts(candidate))
  }

  method IsNewer(current: string, candidate: string) returns (newer: bool)
    ensures newer <==> Newer(current, candidate)
  {
    var c, n := Parts(current), Parts(candidate);
    var len := if |c| < |n| then |n| else |c|;
    var i := 0;
    while i < len
      invariant 0 <= i <= len
      invariant SameUpTo(c, n, i)
    {
      var a, b := Component(c, i), Component(n, i);
      if b != a {
        DecidedAt(c, n, i);
        return b > a;
      }
      i := i + 1;
    }
    EqualPastEnd(c, n, len);
    return false;
  }

  lemma DecidedAt(a: seq<nat>, b: seq<nat>, i: nat)
    requires SameUpTo(a, b, i) && Component(a, i) != Component(b, i)
    ensures Less(a, b) <==> Component(a, i) < Component(b, i)
  {
    if Component(a, i) < Component(b, i) {
      assert LessAt(a, b, i);
    }
    forall j: nat | LessAt(a, b, j) ensures j == i {
    }
  }

  lemma EqualPastEnd(a: seq<nat>, b: seq<nat>, n: nat)
    requires SameUpTo(a, b, n) && |a| <= n && |b| <= n
    ensures Same(a, b) && !Less(a, b)
  {
    forall i: nat ensures Component(a, i) == Component(b, i) {
      assert i < n || Component(a, i) == 0;
    }
  }

  // ---- a strict weak order ---------------------------------------------------------

  /** The first component in which two versions differ, if any. */
  lemma {:induction false} FirstDifference(a: seq<nat>, b: seq<nat>, n: nat) returns (i: nat)
    requires Component(a, n) != Component(b, n)
    ensures SameUpTo(a, b, i) && Component(a, i) != Component(b, i)
    decreases n
  {
    if SameUpTo(a, b, n) {
      i := n;
    } else {
      var m: nat :| m < n && Component(a, m) != Component(b, m);
      i := FirstDifference(a, b, m);
    }
  }

  /** Exactly one of: older, newer, same components. */
  lemma Trichotomy(a: seq<nat>, b: seq<nat>)
    ensures Less(a, b) || Less(b, a) || Same(a, b)
    ensures !(Less(a, b) && Less(b, a)) && !(Same(a, b) && (Less(a, b) || Less(b, a)))
  {
    if !Same(a, b) {
      var n: nat :| Component(a, n) != Component(b, n);
      var i := FirstDifference(a, b, n);
      DecidedAt(a, b, i);
      DecidedAt(b, a, i);
    }
  }

  lemma LessIsTransitive(a: seq<nat>, b: seq<nat>, c: seq<nat>)
    requires Less(a, b) && Less(b, c)
    ensures Less(a, c)
  {
    var i: nat :| LessAt(a, b, i);
    var j: nat :| LessAt(b, c, j);
    assert LessAt(a, c, if i < j then i else j);
  }

  /** `is_newer` is a strict weak order on version strings: irreflexive, transitive,
      and "neither is newer" is an equivalence that newer respects. */
  lemma NewerIsAStrictWeakOrder(x: string, y: string, z: string)
    ensures !Newer(x, x)
    ensures Newer(x, y) && Newer(y, z) ==> Newer(x, z)
    ensures !Newer(x, y) && !Newer(y, x) && !Newer(y, z) && !Newer(z, y) ==> !Newer(x, z) && !Newer(z, x)
    ensures Newer(x, z) ==> Newer(x, y) || Newer(y, z)
  {
    var a, b, c := Parts(x), Parts(y), Parts(z);
    Trichotomy(a, a);
    Trichotomy(a, b);
    Trichotomy(b, c);
    Trichotomy(a, c);
    if Less(a, b) && Less(b, c) {
      LessIsTransitive(a, b, c);
    }
    if Less(a, c) && Same(a, b) {
      var i: nat :| LessAt(a, c, i);
      assert LessAt(b, c, i);
    }
    if Less(a, c) && Less(b, a) {
      LessIsTransitive(b, a, c);
    }
  }

  // ---- the best release ----------------------------------------------------------------

  datatype Asset = Asset(version: string, url: string, sha256Url: Option<string>)

  function TextAt(doc: Json, key: string): Option<string> {
    var v := Child(Some(doc), Key(key));
    if v.Some? && v.value.Str? then Some(v.value.text) else None
  }

  /** `direct_asset_url` if present, else `url`; used only if it is a string. */
  function DownloadUrl(doc: Json): Option<string> {
    if Child(Some(doc), Key("direct_asset_url")).Some? then TextAt(doc, "direct_asset_url") else TextAt(doc, "url")
  }

  const TAG_NAME: string := "tag_name"

  function TagOf(release: Json): Option<string> {
    TextAt(release, TAG_NAME)
  }

  function LinkName(doc: Json): string {
    var name := TextAt(doc, "name");
    if name.Some? then name.value else ""
  }

  function Links(release: Json): Option<seq<Json>> {
    var links := Child(Child(Some(release), Key("assets")), Key("links"));
    if links.Some? && links.value.Arr? then Some(links.value.items) else None
  }

  /** The download of the last link with the given name, if there is one and it has a URL. */
  function LinkNamed(links: seq<Json>, name: string): Option<string> {
    if links == [] then None
    else
      var last := links[|links| - 1];
      if LinkName(last) == name then DownloadUrl(last) else LinkNamed(links[..|links| - 1], name)
  }

  const SHA_SUFFIX: string := ".sha256"

  /** What a release with a tag offers for the wanted asset, leaving its age aside. */
  function Offer(release: Json, tag: string, want: string): Option<Asset> {
    var links := Links(release);
    if links.None? then None
    else
      var url := LinkNamed(links.value, want);
      if url.None? then None
      else Some(Asset(TrimV(tag), url.value, LinkNamed(links.value, want + SHA_SUFFIX)))
  }

  type Order = (string, string) -> bool

  /** One search: what runs now, the asset wanted, and "newer" as a value. */
  datatype Search = Search(current: string, want: string, newer: Order)

  ghost predicate UsesNewer(search: Search) {
    forall x, y {:trigger Newer(x, y)} :: search.newer(x, y) <==> Newer(x, y)
  }

  ghost function SearchFor(current: string, want: string): (search: Search)
    ensures UsesNewer(search) && search.current == current && search.want == want
  {
    Search(current, want, (x, y) => Newer(x, y))
  }

  /** A release that is strictly newer than what runs now and has the asset. */
  function Candidate(release: Json, search: Search): Option<Asset> {
    var tag := TagOf(release);
    if tag.None? || !search.newer(search.current, tag.value) then None
    else Offer(release, tag.value, search.want)
  }

  /** The candidates of a release list, position by position. */
  function Candidates(releases: seq<Json>, search: Search): (candidates: seq<Option<Asset>>)
    ensures |candidates| == |releases|
    ensures forall i :: 0 <= i < |releases| ==> candidates[i] == Candidate(releases[i], search)
  {
    seq(|releases|, i requires 0 <= i < |releases| => Candidate(releases[i], search))
  }

  ghost predicate IsWeakOrder(newer: Order) {
    && (forall x :: !newer(x, x))
    && (forall x, y :: newer(x, y) ==> !newer(y, x))
    && (forall x, y, z :: newer(x, z) && !newer(x, y) ==> newer(y, z))
  }

  lemma NewerIsWeak(search: Search)
    requires UsesNewer(search)
    ensures IsWeakOrder(search.newer)
  {
    var newer := search.newer;
    forall x, y, z
      ensures !newer(x, x) && (newer(x, y) ==> !newer(y, x)) && (newer(x, z) && !newer(x, y) ==> newer(y, z))
    {
      NewerIsAStrictWeakOrder(x, y, x);
      NewerIsAStrictWeakOrder(x, y, z);
    }
  }

  /** `asset` is the candidate at position `i`, no candidate is newer, and earlier
      candidates are all older. */
  predicate IsBestAt(candidates: seq<Option<Asset>>, newer: Order, i: nat, asset: Asset) {
    && i < |candidates| && candidates[i] == Some(asset)
    && (forall j :: 0 <= j < |candidates| && candidates[j].Some? ==> !newer(asset.version, candidates[j].value.version))
    && (forall j :: 0 <= j < i && candidates[j].Some? ==> newer(candidates[j].value.version, asset.version))
  }

  /** The first of the newest candidates, or none if there is no candidate. */
  ghost predicate IsBest(candidates: seq<Option<Asset>>, newer: Order, best: Option<Asset>) {
    match best
    case None => forall j :: 0 <= j < |candidates| ==> candidates[j].None?
    case Some(asset) => exists i: nat :: IsBestAt(candidates, newer, i, asset)
  }

  /** The better of the best so far and one more candidate; the earlier one wins a tie. */
  function Better(newer: Order, best: Option<Asset>, next: Option<Asset>): Option<Asset> {
    if next.None? || (best.Some? && !newer(best.value.version, next.value.version)) then best else next
  }

  function BestOf(releases: seq<Json>, search: Search): Option<Asset> {
    if releases == [] then None
    else
      var n := |releases| - 1;
      Better(search.newer, BestOf(releases[..n], search), Candidate(releases[n], search))
  }

  lemma BestOfStep(releases: seq<Json>, i: nat, search: Search)
    requires i < |releases|
    ensures BestOf(releases[..i + 1], search)
         == Better(search.newer, BestOf(releases[..i], search), Candidate(releases[i], search))
  {
    assert releases[..i + 1][..i] == releases[..i];
  }

  predicate AllTagged(releases: Json) {
    releases.Arr? && forall i :: 0 <= i < |releases.items| ==> TagOf(releases.items[i]).Some?
  }

  /** None unless the answer is an array in which every release has a tag. */
  method ParseBestRelease(releases: Json, current: string, want: string) returns (best: Option<Asset>)
    ensures best == if AllTagged(releases) then BestOf(releases.items, SearchFor(current, want)) else None
  {
    if !releases.Arr? {
      return None;
    }
    var tagged, found := Select(releases.items, current, want, SearchFor(current, want));
    return if tagged then found else None;
  }

  /** The loop over the releases, left as soon as one has no tag. */
  method Select(items: seq<Json>, current: string, want: string, ghost search: Search) returns (tagged: bool, best: Option<Asset>)
    requires UsesNewer(search) && search.current == current && search.want == want
    ensures tagged <==> forall i :: 0 <= i < |items| ==> TagOf(items[i]).Some?
    ensures tagged ==> best == BestOf(items, search)
  {
    best := None;
    for i := 0 to |items|
      invariant forall j :: 0 <= j < i ==> TagOf(items[j]).Some?
      invariant best == BestOf(items[..i], search)
    {
      var tag := TagOf(items[i]);
      if tag.None? {
        return false, None;
      }
      BestOfStep(items, i, search);
      best := Consider(items[i], tag.value, current, want, best, search);
    }
    assert items[..|items|] == items;
    return true, best;
  }

  /** The body of the loop for one tagged release. */
  method Consider(release: Json, tag: string, current: string, want: string, best: Option<Asset>, ghost search: Search)
    returns (now: Option<Asset>)
    requires UsesNewer(search) && search.current == current && search.want == want
    requires TagOf(release) == Some(tag)
    ensures now == Better(search.newer, best, Candidate(release, search))
  {
    var newer := IsNewer(current, tag);
    if !newer {
      return best;
    }
    var offer := FindOffer(release, tag, want);
    if offer.None? {
      return best;
    }
    if best.Some? {
      var better := IsNewer(best.value.version, offer.value.version);
      if !better {
        return best;
      }
    }
    return offer;
  }

  /** The inner loop over the links: later links override earlier ones. */
  method FindOffer(release: Json, tag: string, want: string) returns (offer: Option<Asset>)
    ensures offer == Offer(release, tag, want)
  {
    var links := Links(release);
    if links.None? {
      return None;
    }
    var url: Option<string>, shaUrl: Option<string> := None, None;
    var shaWant := want + SHA_SUFFIX;
    assert |shaWant| != |want|;
    var i := 0;
    while i < |links.value|
      invariant 0 <= i <= |links.value|
      invariant url == LinkNamed(links.value[..i], want)
      invariant shaUrl == LinkNamed(links.value[..i], shaWant)
    {
      assert links.value[..i + 1][..i] == links.value[..i];
      var name := LinkName(links.value[i]);
      if name == want {
        url := DownloadUrl(links.value[i]);
      } else if name == shaWant {
        shaUrl := DownloadUrl(links.value[i]);
      }
      i := i + 1;
    }
    assert links.value[..i] == links.value;
    return if url.None? then None else Some(Asset(TrimV(tag), url.value, shaUrl));
  }

  lemma {:induction false} TrimVTwice(s: string)
    ensures TrimV(TrimV(s)) == TrimV(s)
  {
    if s != [] && s[0] == 'v' {
      TrimVTwice(s[1..]);
    }
  }

  /** One more release, in whatever place. */
  lemma BestGrows(candidates: seq<Option<Asset>>, newer: Order, best: Option<Asset>, next: Option<Asset>)
    requires IsWeakOrder(newer) && IsBest(candidates, newer, best)
    ensures IsBest(candidates + [next], newer, Better(newer, best, next))
  {
    var all := candidates + [next];
    if best.Some? && (next.None? || !newer(best.value.version, next.value.version)) {
      var i: nat :| IsBestAt(candidates, newer, i, best.value);
      assert IsBestAt(all, newer, i, best.value);
    } else if next.Some? {
      assert IsBestAt(all, newer, |candidates|, next.value);
    }
  }

  lemma {:induction false} BestOfIsBest(releases: seq<Json>, search: Search)
    requires IsWeakOrder(search.newer)
    ensures IsBest(Candidates(releases, search), search.newer, BestOf(releases, search))
    decreases |releases|
  {
    if releases != [] {
      var n := |releases| - 1;
      BestOfIsBest(releases[..n], search);
      BestGrows(Candidates(releases[..n], search), search.newer, BestOf(releases[..n], search), Candidate(releases[n], search));
      assert Candidates(releases, search) == Candidates(releases[..n], search) + [Candidate(releases[n], search)];
    }
  }

  /** The chosen release, whatever the list order: there is one exactly when some
      release is newer than what runs now and has the asset; no such release is newer
      than it, and it is the first in the list among its equals. */
  lemma BestIsNewest(releases: seq<Json>, search: Search)
    requires UsesNewer(search)
    ensures var best := BestOf(releases, search);
            && (best.Some? <==> exists r :: r in releases && Candidate(r, search).Some?)
            && (best.Some? ==> search.newer(search.current, best.value.version))
            && (best.Some? ==> forall r :: r in releases && Candidate(r, search).Some? ==>
                                 !search.newer(best.value.version, TagOf(r).value))
            && (best.Some? ==> exists i: nat :: IsBestAt(Candidates(releases, search), search.newer, i, best.value))
  {
    NewerIsWeak(search);
    BestOfIsBest(releases, search);
    var best := BestOf(releases, search);
    if best.Some? {
      var i: nat :| IsBestAt(Candidates(releases, search), search.newer, i, best.value);
      assert releases[i] in releases;
      CandidateVersion(releases[i], search, search.current);
      forall r | r in releases && Candidate(r, search).Some?
        ensures !search.newer(best.value.version, TagOf(r).value)
      {
        var j :| 0 <= j < |releases| && releases[j] == r;
        CandidateVersion(r, search, best.value.version);
      }
    }
  }

  /** A candidate's version compares as its tag does. */
  lemma CandidateVersion(release: Json, search: Search, x: string)
    requires UsesNewer(search) && Candidate(release, search).Some?
    ensures search.newer(x, TagOf(release).value) <==> search.newer(x, Candidate(release, search).value.version)
  {
    var tag := TagOf(release).value;
    TrimVTwice(tag);
    assert Newer(x, tag) <==> Newer(x, TrimV(tag));
  }

  // ---- the self-updater's comparison -----------------------------------------------------

  /** Dotted numeric: every piece between dots is a number. */
  predicate IsSemver(version: string) {
    version != [] && forall p :: p in Pieces(version, {'.'}) ==> ParseU64(p).Some?
  }

  /** `filter_map(|p| p.parse().ok())` */
  function ParsedNumbers(pieces: seq<string>): seq<nat> {
    if pieces == [] then []
    else (var n := ParseU64(pieces[0]); if n.Some? then [n.value] else []) + ParsedNumbers(pieces[1..])
  }

  /** `Vec::cmp`: lexicographic, a proper prefix is smaller. */
  function CompareLists(a: seq<nat>, b: seq<nat>): int {
    if a == [] && b == [] then 0
    else if a == [] then -1
    else if b == [] then 1
    else if a[0] < b[0] then -1
    else if a[0] > b[0] then 1
    else CompareLists(a[1..], b[1..])
  }

  /** `version_cmp` against the running version. */
  function VersionCmp(version: string, current: string): int {
    CompareLists(ParsedNumbers(Pieces(version, {'.'})), ParsedNumbers(Pieces(current, {'.'})))
  }

  /** `longer` is `shorter` with one or more zero components added. */
  predicate ZeroPadded(longer: seq<nat>, shorter: seq<nat>) {
    && |shorter| < |longer| && shorter == longer[..|shorter|]
    && forall i :: |shorter| <= i < |longer| ==> longer[i] == 0
  }

  lemma {:induction false} AllParse(pieces: seq<string>)
    requires forall p :: p in pieces ==> ParseU64(p).Some?
    ensures ParsedNumbers(pieces) == Numbers(pieces)
    decreases |pieces|
  {
    if pieces != [] {
      AllParse(pieces[1..]);
      assert pieces[0] in pieces;
      assert Numbers(pieces) == [NumberOrZero(pieces[0])] + Numbers(pieces[1..]);
    }
  }

  /** Without dashes, splitting at dots and dashes is splitting at dots. */
  lemma {:induction false} NoDashes(s: string)
    requires '-' !in s
    ensures Pieces(s, {'.', '-'}) == Pieces(s, {'.'})
    decreases |s|
  {
    if s != [] {
      NoDashes(s[1..]);
      assert s[0] in s;
    }
  }

  /** Every character between separators ends up in some piece. */
  lemma {:induction false} PieceHolds(s: string, seps: set<char>, c: char) returns (piece: string)
    requires c in s && c !in seps
    ensures piece in Pieces(s, seps) && c in piece
    decreases |s|
  {
    var pieces := Pieces(s, seps);
    var rest := Pieces(s[1..], seps);
    if s[0] == c {
      piece := pieces[0];
    } else {
      assert s == [s[0]] + s[1..];
      piece := PieceHolds(s[1..], seps, c);
      if s[0] in seps {
        assert pieces[1..] == rest;
      } else if piece == rest[0] {
        piece := [s[0]] + piece;
        assert pieces[0] == piece;
      } else {
        assert piece in rest[1..];
        assert pieces[1..] == rest[1..];
      }
    }
  }

  lemma {:induction false} DigitsOnly(s: string, c: char)
    requires DigitsValue(s).Some? && c in s
    ensures IsDigit(c)
    decreases |s|
  {
    if c != s[|s| - 1] {
      assert s == s[..|s| - 1] + [s[|s| - 1]];
      DigitsOnly(s[..|s| - 1], c);
    }
  }

  /** On a dotted numeric version both comparisons see the same numbers. */
  lemma SemverParts(version: string)
    requires IsSemver(version)
    ensures ParsedNumbers(Pieces(version, {'.'})) == Parts(version)
  {
    forall c | c in version ensures c == '.' || c == '+' || IsDigit(c) {
      if c != '.' {
        var piece := PieceHolds(version, {'.'}, c);
        var digits := if piece[0] == '+' then piece[1..] else piece;
        assert piece == if piece[0] == '+' then ['+'] + digits else digits;
        if c in digits {
          DigitsOnly(digits, c);
        }
      }
    }
    NoDashes(version);
    AllParse(Pieces(version, {'.'}));
    assert version[0] in version;
  }

  lemma {:induction false} CompareIsPadded(a: seq<nat>, b: seq<nat>)
    ensures Less(b, a) <==> CompareLists(a, b) == 1 && !ZeroPadded(a, b)
    decreases |a|
  {
    if a == [] {
      forall i: nat ensures !LessAt(b, a, i) {
      }
    } else if b == [] {
      if ZeroPadded(a, b) {
        EqualPastEnd(b, a, |a|);
      } else {
        var n :| 0 <= n < |a| && a[n] != 0;
        var i := FirstDifference(b, a, n);
        DecidedAt(b, a, i);
      }
    } else if a[0] != b[0] {
      DecidedAt(b, a, 0);
    } else {
      CompareIsPadded(a[1..], b[1..]);
      DropEqualHead(b, a);
      assert ZeroPadded(a, b) <==> ZeroPadded(a[1..], b[1..]) by {
        assert a == [a[0]] + a[1..] && b == [b[0]] + b[1..];
        if ZeroPadded(a[1..], b[1..]) {
          assert a[..|b|] == [a[0]] + a[1..][..|b| - 1];
          assert forall i :: |b| <= i < |a| ==> a[i] == a[1..][i - 1];
        }
        if ZeroPadded(a, b) {
          assert b[1..] == a[..|b|][1..] == a[1..][..|b| - 1];
        }
      }
    }
  }

  lemma DropEqualHead(a: seq<nat>, b: seq<nat>)
    requires a != [] && b != [] && a[0] == b[0]
    ensures Less(a, b) <==> Less(a[1..], b[1..])
  {
    assert forall i: nat :: Component(a[1..], i) == Component(a, i + 1) && Component(b[1..], i) == Component(b, i + 1);
    if i: nat :| LessAt(a, b, i) {
      assert i > 0;
      assert LessAt(a[1..], b[1..], i - 1);
    }
    if i: nat :| LessAt(a[1..], b[1..], i) {
      forall j: nat | j < i + 1 ensures Component(a, j) == Component(b, j) {
        if j > 0 {
          assert Component(a[1..], j - 1) == Component(b[1..], j - 1);
        }
      }
      assert LessAt(a, b, i + 1);
    }
  }

  /** `Vec::cmp` answers with a sign, and swapping the sides swaps it. */
  lemma {:induction false} CompareIsAntisymmetric(a: seq<nat>, b: seq<nat>)
    ensures -1 <= CompareLists(a, b) <= 1
    ensures CompareLists(b, a) == -CompareLists(a, b)
    ensures CompareLists(a, b) == 0 <==> a == b
    decreases |a|
  {
    if a != [] && b != [] {
      CompareIsAntisymmetric(a[1..], b[1..]);
      assert a == [a[0]] + a[1..] && b == [b[0]] + b[1..];
    }
  }

  /** On dotted numeric versions the two comparisons agree, except when one version is
      the other with zero components added: the self-updater orders those two, the USB
      updater does not. */
  lemma ComparisonsAgree(version: string, current: string)
    requires IsSemver(version) && IsSemver(current)
    ensures Newer(current, version) <==>
            VersionCmp(version, current) > 0 && !ZeroPadded(Parts(version), Parts(current))
    ensures Newer(version, current) <==>
            VersionCmp(version, current) < 0 && !ZeroPadded(Parts(current), Parts(version))
    ensures VersionCmp(version, current) == 0 <==> Parts(version) == Parts(current)
  {
    SemverParts(version);
    SemverParts(current);
    CompareIsPadded(Parts(version), Parts(current));
    CompareIsPadded(Parts(current), Parts(version));
    CompareIsAntisymmetric(Parts(version), Parts(current));
  }

  /** What the server assigned, as `check_and_apply` finds it. */
  datatype Target = Target(version: Option<string>, storePath: Option<string>)

  /** The running daemon: its version, its own store path if it runs from the store, and
      the store path its marker file names. */
  datatype Running = Running(version: string, storePath: Option<string>, marker: Option<string>)

  /** Why nothing is applied. */
  datatype Decision = NoTarget | Downgrade | NoStorePath | AlreadyThere | BadStorePath | Apply(storePath: string)

  const STORE: string := "/nix/store/"

  predicate IsEntryName(rest: string) {
    && rest != [] && rest[0] != '-' && '/' !in rest
    && forall c :: c in rest ==>
         || IsDigit(c) || 'a' <= c <= 'z' || 'A' <= c <= 'Z'
         || c == '-' || c == '_' || c == '.' || c == '+' || c == '?' || c == '='
  }

  /** `is_valid_store_path` */
  predicate IsStorePath(path: string) {
    STORE <= path && IsEntryName(path[|STORE|..])
  }

  /** The decision part of `check_and_apply`. */
  function Decide(target: Target, running: Running): Decision {
    if target.version.None? then
      NoTarget
    else
      var version := target.version.value;
      if IsSemver(version) && IsSemver(running.version) && VersionCmp(version, running.version) < 0 then
        Downgrade
      else if target.storePath.None? then
        NoStorePath
      else
        var path := target.storePath.value;
        if running.storePath.Some? && running.storePath.value == path then AlreadyThere
        else if running.storePath.None? && version == running.version && running.marker == Some(path) then AlreadyThere
        else if !IsStorePath(path) then BadStorePath
        else Apply(path)
  }

  /** Between dotted numeric versions an update is refused as a downgrade exactly when
      the running version is newer in the padded order or adds zero components to the
      target; so no update ever goes back in that order. */
  lemma GuardRefusesDowngrades(target: Target, running: Running)
    requires target.version.Some? && IsSemver(target.version.value) && IsSemver(running.version)
    ensures var version, decision := target.version.value, Decide(target, running);
            && (decision.Downgrade? <==>
                Newer(version, running.version) || ZeroPadded(Parts(running.version), Parts(version)))
            && (decision.Apply? ==> !Newer(version, running.version))
  {
    var version := target.version.value;
    ComparisonsAgree(version, running.version);
    ZeroPaddedIsLarger(Parts(running.version), Parts(version));
    CompareIsAntisymmetric(Parts(running.version), Parts(version));
    SemverParts(version);
    SemverParts(running.version);
  }

  lemma {:induction false} ZeroPaddedIsLarger(longer: seq<nat>, shorter: seq<nat>)
    ensures ZeroPadded(longer, shorter) ==> CompareLists(longer, shorter) == 1
    decreases |shorter|
  {
    if ZeroPadded(longer, shorter) && shorter != [] {
      assert shorter[1..] == longer[..|shorter|][1..] == longer[1..][..|shorter| - 1];
      ZeroPaddedIsLarger(longer[1..], shorter[1..]);
    }
  }
}
