/** What version texts, release documents and update targets say, described without the
    functions that read them (daemon/src/usb_update.rs, daemon/src/self_update.rs). */
module ReleaseTexts {
  import opened Prelude
  import opened Documents
  import opened Versions

  // ---- numbers -------------------------------------------------------------------

  /** The usual decimal notation of a number. */
  function Decimal(n: nat): (text: string)
    ensures text != [] && forall i :: 0 <= i < |text| ==> '0' <= text[i] <= '9'
  {
    var digit := ('0' as int + n % 10) as char;
    if n < 10 then [digit] else Decimal(n / 10) + [digit]
  }

  lemma {:induction false} DecimalValue(n: nat)
    ensures DigitsValue(Decimal(n)) == Some(n)
  {
    var digit := ('0' as int + n % 10) as char;
    if n < 10 {
      assert [digit][..0] == [];
    } else {
      DecimalValue(n / 10);
      assert Decimal(n)[..|Decimal(n)| - 1] == Decimal(n / 10);
    }
  }

  /** A number that fits 64 bits reads back from its decimal notation, with or without a
      plus sign; a larger one does not parse. */
  lemma NumbersReadBack(n: nat)
    ensures ParseU64(Decimal(n)) == if n <= 18_446_744_073_709_551_615 then Some(n) else None
    ensures ParseU64("+" + Decimal(n)) == ParseU64(Decimal(n))
  {
    DecimalValue(n);
    assert ("+" + Decimal(n))[1..] == Decimal(n);
  }

  /** Nothing else parses: a sign other than one plus, a blank, a letter or no digit at all. */
  lemma {:induction false} OnlyDigitsParse(s: string)
    requires DigitsValue(s).Some?
    ensures forall i :: 0 <= i < |s| ==> '0' <= s[i] <= '9'
    decreases |s|
  {
    if s != [] {
      OnlyDigitsParse(s[..|s| - 1]);
    }
  }

  lemma NumbersAreDigits(s: string)
    requires ParseU64(s).Some?
    ensures exists digits: string ::
              && (s == digits || s == "+" + digits) && digits != []
              && forall i :: 0 <= i < |digits| ==> '0' <= digits[i] <= '9'
  {
    var digits := if s != [] && s[0] == '+' then s[1..] else s;
    OnlyDigitsParse(digits);
    assert s == digits || s == "+" + digits;
  }

  // ---- versions ------------------------------------------------------------------------

  /** The pieces of a version, written one after the other with a separator after each but
      the last. */
  function Woven(pieces: seq<string>, separators: string): string
    requires |pieces| == |separators| + 1
    decreases |pieces|
  {
    if |pieces| == 1 then pieces[0] else pieces[0] + [separators[0]] + Woven(pieces[1..], separators[1..])
  }

  predicate AreSeparators(separators: string, seps: set<char>) {
    forall i :: 0 <= i < |separators| ==> separators[i] in seps
  }

  predicate HasNone(piece: string, seps: set<char>) {
    forall i :: 0 <= i < |piece| ==> piece[i] !in seps
  }

  lemma {:induction false} PiecesOfWord(piece: string, seps: set<char>)
    requires HasNone(piece, seps)
    ensures Pieces(piece, seps) == [piece]
    decreases |piece|
  {
    if piece != [] {
      PiecesOfWord(piece[1..], seps);
      assert piece == [piece[0]] + piece[1..];
    }
  }

  lemma {:induction false} PiecesOfFirst(piece: string, sep: char, rest: string, seps: set<char>)
    requires HasNone(piece, seps) && sep in seps
    ensures Pieces(piece + [sep] + rest, seps) == [piece] + Pieces(rest, seps)
    decreases |piece|
  {
    var text := piece + [sep] + rest;
    if piece == [] {
      assert text[1..] == rest;
    } else {
      assert text[1..] == piece[1..] + [sep] + rest;
      PiecesOfFirst(piece[1..], sep, rest, seps);
      assert piece == [piece[0]] + piece[1..];
    }
  }

  lemma {:induction false} PiecesOfWoven(pieces: seq<string>, separators: string, seps: set<char>)
    requires |pieces| == |separators| + 1 && AreSeparators(separators, seps)
    requires forall i :: 0 <= i < |pieces| ==> HasNone(pieces[i], seps)
    ensures Pieces(Woven(pieces, separators), seps) == pieces
    decreases |pieces|
  {
    assert HasNone(pieces[0], seps);
    if |pieces| == 1 {
      PiecesOfWord(pieces[0], seps);
    } else {
      assert separators[0] in seps;
      PiecesOfWoven(pieces[1..], separators[1..], seps);
      PiecesOfFirst(pieces[0], separators[0], Woven(pieces[1..], separators[1..]), seps);
      assert pieces == [pieces[0]] + pieces[1..];
    }
  }

  lemma {:induction false} LeadingVs(vs: string, rest: string)
    requires (forall i :: 0 <= i < |vs| ==> vs[i] == 'v') && (rest == [] || rest[0] != 'v')
    ensures TrimV(vs + rest) == rest
    decreases |vs|
  {
    if vs == [] {
      assert vs + rest == rest;
    } else {
      assert (vs + rest)[1..] == vs[1..] + rest;
      LeadingVs(vs[1..], rest);
    }
  }

  lemma WovenStart(pieces: seq<string>, separators: string)
    requires |pieces| == |separators| + 1 && AreSeparators(separators, {'.', '-'}) && (pieces[0] == [] || pieces[0][0] != 'v')
    ensures var text := Woven(pieces, separators); text == [] || text[0] != 'v'
  {
    if |pieces| > 1 {
      assert separators[0] in {'.', '-'};
    }
  }

  /** What `is_newer` reads out of a version: whatever number of leading "v"s, then pieces
      between dots and dashes, each the number it spells or zero. */
  lemma VersionIsRead(vs: string, pieces: seq<string>, separators: string)
    requires forall i :: 0 <= i < |vs| ==> vs[i] == 'v'
    requires |pieces| == |separators| + 1 && AreSeparators(separators, {'.', '-'})
    requires forall i :: 0 <= i < |pieces| ==> HasNone(pieces[i], {'.', '-'})
    requires pieces[0] == [] || pieces[0][0] != 'v'
    ensures var parts := Parts(vs + Woven(pieces, separators));
            && |parts| == |pieces|
            && forall i :: 0 <= i < |pieces| ==>
                 parts[i] == if ParseU64(pieces[i]).Some? then ParseU64(pieces[i]).value else 0
  {
    WovenStart(pieces, separators);
    LeadingVs(vs, Woven(pieces, separators));
    PiecesOfWoven(pieces, separators, {'.', '-'});
  }

  /** What `is_semver` and `version_cmp` read: pieces between dots, all of them numbers. */
  lemma SemverIsRead(pieces: seq<string>, dots: string)
    requires |pieces| == |dots| + 1 && AreSeparators(dots, {'.'})
    requires forall i :: 0 <= i < |pieces| ==> HasNone(pieces[i], {'.'})
    ensures IsSemver(Woven(pieces, dots)) <==> forall i :: 0 <= i < |pieces| ==> ParseU64(pieces[i]).Some?
  {
    PiecesOfWoven(pieces, dots, {'.'});
    var text := Woven(pieces, dots);
    if text == [] {
      assert |pieces| == 1 && pieces[0] == [];
    }
    assert forall i :: 0 <= i < |pieces| ==> pieces[i] in pieces;
  }

  // ---- releases -------------------------------------------------------------------------

  predicate HasText(doc: Json, key: string, text: string) {
    doc.Obj? && key in doc.fields && doc.fields[key] == Str(text)
  }

  /** The link's download: its direct URL if it has one, else its URL. */
  predicate Downloads(link: Json, url: string) {
    link.Obj? &&
    if "direct_asset_url" in link.fields then HasText(link, "direct_asset_url", url) else HasText(link, "url", url)
  }

  /** The links of a release document. */
  predicate HasLinks(release: Json, links: seq<Json>) {
    && release.Obj? && "assets" in release.fields && release.fields["assets"].Obj?
    && "links" in release.fields["assets"].fields && release.fields["assets"].fields["links"] == Arr(links)
  }

  /** The last link with that name is the one at `i`, and it can be downloaded. */
  predicate IsLastLink(links: seq<Json>, name: string, url: string, i: nat) {
    && i < |links| && HasText(links[i], "name", name) && Downloads(links[i], url)
    && forall j :: i < j < |links| ==> !HasText(links[j], "name", name)
  }

  ghost predicate Publishes(release: Json, name: string, url: string) {
    exists links, i: nat :: HasLinks(release, links) && IsLastLink(links, name, url, i)
  }

  lemma DownloadIs(link: Json, url: string)
    ensures link.Obj? ==> (DownloadUrl(link) == Some(url) <==> Downloads(link, url))
    ensures forall name :: name != "" ==> (LinkName(link) == name <==> HasText(link, "name", name))
  {
  }

  lemma {:induction false} LinkNamedIs(links: seq<Json>, name: string, url: string)
    requires name != ""
    ensures LinkNamed(links, name) == Some(url) <==> exists i: nat :: IsLastLink(links, name, url, i)
    decreases |links|
  {
    if links != [] {
      var n := |links| - 1;
      var last, init := links[n], links[..n];
      DownloadIs(last, url);
      if LinkName(last) == name {
        if LinkNamed(links, name) == Some(url) {
          assert IsLastLink(links, name, url, n);
        }
        if i: nat :| IsLastLink(links, name, url, i) {
          assert i == n;
        }
      } else {
        LinkNamedIs(init, name, url);
        if i: nat :| IsLastLink(init, name, url, i) {
          assert IsLastLink(links, name, url, i);
        }
        if i: nat :| IsLastLink(links, name, url, i) {
          assert IsLastLink(init, name, url, i);
        }
      }
    }
  }

  lemma LinksAre(release: Json, links: seq<Json>)
    ensures Links(release) == Some(links) <==> HasLinks(release, links)
  {
  }

  lemma PublishedIs(release: Json, name: string, url: string)
    requires name != ""
    ensures Publishes(release, name, url) <==> Links(release).Some? && LinkNamed(Links(release).value, name) == Some(url)
  {
    if Links(release).Some? {
      LinksAre(release, Links(release).value);
      LinkNamedIs(Links(release).value, name, url);
    }
    if Publishes(release, name, url) {
      var links, i: nat :| HasLinks(release, links) && IsLastLink(links, name, url, i);
      LinksAre(release, links);
      LinkNamedIs(links, name, url);
    }
  }

  /** What a release offers: the download of the wanted asset, if it publishes one, and of
      its checksum, if it publishes that. */
  lemma OfferIsPublished(release: Json, tag: string, want: string)
    requires want != ""
    ensures var offer := Offer(release, tag, want);
            && (offer.Some? <==> exists url :: Publishes(release, want, url))
            && (offer.Some? ==> Publishes(release, want, offer.value.url))
            && (offer.Some? ==> forall url :: offer.value.sha256Url == Some(url) <==> Publishes(release, want + ".sha256", url))
            && (offer.Some? ==> offer.value.version == TrimV(tag))
  {
    forall url ensures Publishes(release, want, url) <==> Links(release).Some? && LinkNamed(Links(release).value, want) == Some(url) {
      PublishedIs(release, want, url);
    }
    forall url
      ensures Publishes(release, want + ".sha256", url) <==>
              Links(release).Some? && LinkNamed(Links(release).value, want + ".sha256") == Some(url)
    {
      PublishedIs(release, want + ".sha256", url);
    }
  }

  /** A release that counts: tagged, newer than what runs now, and publishing the asset. */
  ghost predicate Counts(release: Json, current: string, want: string) {
    exists tag, url :: HasText(release, "tag_name", tag) && Newer(current, tag) && Publishes(release, want, url)
  }

  lemma CandidateCounts(release: Json, search: Search)
    requires UsesNewer(search) && search.want != ""
    ensures Candidate(release, search).Some? <==> Counts(release, search.current, search.want)
  {
    var tag := TagOf(release);
    if tag.Some? {
      OfferIsPublished(release, tag.value, search.want);
      assert HasText(release, "tag_name", tag.value);
      assert search.newer(search.current, tag.value) <==> Newer(search.current, tag.value);
    }
  }

  /** The updater finds a release exactly when some release counts, whatever the order of
      the list. */
  lemma BestReleaseCounts(releases: seq<Json>, current: string, want: string)
    requires want != ""
    ensures BestOf(releases, SearchFor(current, want)).Some? <==> exists r :: r in releases && Counts(r, current, want)
  {
    var search := SearchFor(current, want);
    BestIsNewest(releases, search);
    forall r ensures Candidate(r, search).Some? <==> Counts(r, current, want) {
      CandidateCounts(r, search);
    }
    if r :| r in releases && Counts(r, current, want) {
      assert Candidate(r, search).Some?;
    }
  }

  // ---- update targets -----------------------------------------------------------------------

  /** A name of the characters nix uses, not starting with a dash. */
  predicate IsStoreName(name: string) {
    && name != [] && name[0] != '-'
    && forall i :: 0 <= i < |name| ==>
         || 'a' <= name[i] <= 'z' || 'A' <= name[i] <= 'Z' || '0' <= name[i] <= '9'
         || name[i] == '-' || name[i] == '_' || name[i] == '.' || name[i] == '+' || name[i] == '?' || name[i] == '='
  }

  ghost predicate IsStoreEntry(path: string) {
    exists name: string :: path == "/nix/store/" + name && IsStoreName(name)
  }

  lemma StoreNames(rest: string)
    ensures IsStoreName(rest) <==> IsEntryName(rest)
  {
    assert forall i :: 0 <= i < |rest| ==> rest[i] in rest;
  }

  lemma StorePathsAreEntries(path: string)
    ensures IsStorePath(path) <==> IsStoreEntry(path)
  {
    if IsStorePath(path) {
      var name := path[|STORE|..];
      StoreNames(name);
      assert path == "/nix/store/" + name;
    }
    if IsStoreEntry(path) {
      var name :| path == "/nix/store/" + name && IsStoreName(name);
      StoreNames(name);
      assert STORE <= path && path[|STORE|..] == name;
    }
  }

  /** The daemon already runs from that store path, or it does not run from the store but
      last applied that path under the version it has. */
  predicate IsThere(target: Target, running: Running) {
    || running.storePath == target.storePath
    || (running.storePath.None? && target.version == Some(running.version) && running.marker == target.storePath)
  }

  ghost predicate GoesBack(version: string, running: string) {
    && IsSemver(version) && IsSemver(running)
    && (Newer(version, running) || ZeroPadded(Parts(running), Parts(version)))
  }

  lemma DowngradeGoesBack(target: Target, running: Running)
    requires target.version.Some?
    ensures Decide(target, running).Downgrade? <==> GoesBack(target.version.value, running.version)
  {
    if IsSemver(target.version.value) && IsSemver(running.version) {
      GuardRefusesDowngrades(target, running);
    }
  }

  /** When an update is applied, exactly: the server names a version and a store path, the
      version is no downgrade, the daemon is not there yet and the path is a store entry. */
  lemma AppliedIff(target: Target, running: Running, path: string)
    ensures Decide(target, running) == Apply(path) <==>
            && target.version.Some? && target.storePath == Some(path)
            && !GoesBack(target.version.value, running.version)
            && !IsThere(target, running) && IsStoreEntry(path)
  {
    StorePathsAreEntries(path);
    if target.version.Some? {
      DowngradeGoesBack(target, running);
    }
  }
}
