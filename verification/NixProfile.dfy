/** Upgrading a nix profile element and detecting flake drift
    (mac-mgmt-agent/src/nix.rs `flake_base_eq`, `packages_with_upgrades` and the
    upgrade path of `profile_install_with_nix`). */
module NixProfile {
  import opened Prelude

  const FLAKE: string := "flake:"
  const TARBALL: string := "tarball+"
  const FILE: string := "file+"

  function StripPrefix(s: string, prefix: string): string {
    if prefix <= s then s[|prefix|..] else s
  }

  /** `trim_end_matches('/')` */
  function TrimSlashes(s: string): string {
    if s != [] && s[|s| - 1] == '/' then TrimSlashes(s[..|s| - 1]) else s
  }

  function Norm(url: string): string {
    TrimSlashes(StripPrefix(StripPrefix(StripPrefix(url, FLAKE), TARBALL), FILE))
  }

  predicate BaseEq(a: string, b: string) {
    Norm(a) == Norm(b)
  }

  // ---- which stored forms count as the desired one -----------------------------------

  predicate OnlySlashes(s: string) {
    forall i :: 0 <= i < |s| ==> s[i] == '/'
  }

  lemma {:induction false} TrimSlashesAppend(s: string, slashes: string)
    requires OnlySlashes(slashes)
    ensures TrimSlashes(s + slashes) == TrimSlashes(s)
    decreases |slashes|
  {
    if slashes == [] {
      assert s + slashes == s;
    } else {
      var n := |slashes| - 1;
      assert (s + slashes)[..|s + slashes| - 1] == s + slashes[..n];
      TrimSlashesAppend(s, slashes[..n]);
    }
  }

  /** A prefix that does not end in a slash survives trimming. */
  lemma {:induction false} TrimSlashesKeeps(prefix: string, s: string)
    requires prefix != [] && prefix[|prefix| - 1] != '/'
    ensures TrimSlashes(prefix + s) == prefix + TrimSlashes(s)
    decreases |s|
  {
    if s == [] {
      assert prefix + s == prefix;
    } else if s[|s| - 1] == '/' {
      assert (prefix + s)[..|prefix + s| - 1] == prefix + s[..|s| - 1];
      TrimSlashesKeeps(prefix, s[..|s| - 1]);
    }
  }

  /** Trailing slashes cannot complete a scheme prefix. */
  lemma StripPrefixAppend(s: string, prefix: string, slashes: string)
    requires OnlySlashes(slashes) && '/' !in prefix
    ensures StripPrefix(s + slashes, prefix) == StripPrefix(s, prefix) + slashes
  {
    var t := s + slashes;
    if prefix <= s {
      assert prefix <= t;
      assert t[|prefix|..] == s[|prefix|..] + slashes;
    } else if |prefix| <= |s| {
      assert t[..|prefix|] == s[..|prefix|];
    } else if slashes != [] {
      assert t[|s|] == '/' && prefix[|s|] in prefix;
      assert prefix[|s|] != t[|s|];
    }
  }

  lemma SlashesDoNotMatter(url: string, slashes: string)
    requires OnlySlashes(slashes)
    ensures Norm(url + slashes) == Norm(url)
  {
    StripPrefixAppend(url, FLAKE, slashes);
    var a := StripPrefix(url, FLAKE);
    StripPrefixAppend(a, TARBALL, slashes);
    var b := StripPrefix(a, TARBALL);
    StripPrefixAppend(b, FILE, slashes);
    TrimSlashesAppend(StripPrefix(b, FILE), slashes);
  }

  /** The scheme nix may put in front of the desired base. */
  datatype Scheme = Plain | AsFlake | AsTarball | AsFile

  function Prefix(scheme: Scheme): string {
    match scheme
    case Plain => ""
    case AsFlake => FLAKE
    case AsTarball => TARBALL
    case AsFile => FILE
  }

  /** The desired base does not already start with a prefix that is stripped no later
      than the one nix adds. */
  predicate Recognisable(scheme: Scheme, base: string) {
    match scheme
    case Plain => true
    case AsFlake => !(FLAKE <= base)
    case AsTarball => !(FLAKE <= base) && !(TARBALL <= base)
    case AsFile => !(FLAKE <= base) && !(TARBALL <= base) && !(FILE <= base)
  }

  lemma StripOwn(prefix: string, s: string)
    ensures StripPrefix(prefix + s, prefix) == s
  {
  }

  /** What is left when an unrecognisable prefix stays in place is longer than the norm
      of the base. */
  lemma {:induction false} NormIsShort(url: string)
    ensures |Norm(url)| <= |TrimSlashes(url)|
    ensures FLAKE <= url || TARBALL <= url || FILE <= url ==> |Norm(url)| < |TrimSlashes(url)|
  {
    NormTail(url, FLAKE);
    var a := StripPrefix(url, FLAKE);
    NormTail(a, TARBALL);
    var b := StripPrefix(a, TARBALL);
    NormTail(b, FILE);
  }

  lemma NormTail(url: string, prefix: string)
    requires prefix != [] && prefix[|prefix| - 1] != '/'
    ensures |TrimSlashes(StripPrefix(url, prefix))| <= |TrimSlashes(url)|
    ensures prefix <= url ==> |TrimSlashes(StripPrefix(url, prefix))| < |TrimSlashes(url)|
  {
    if prefix <= url {
      assert url == prefix + url[|prefix|..];
      TrimSlashesKeeps(prefix, url[|prefix|..]);
    }
  }

  lemma DifferentSchemes(s: string)
    ensures !(FLAKE <= TARBALL + s) && !(FLAKE <= FILE + s) && !(TARBALL <= FILE + s)
  {
    assert (TARBALL + s)[0] == 't' && FLAKE[0] == 'f' && TARBALL[0] == 't';
    assert (FILE + s)[0] == 'f' && (FILE + s)[1] == 'i' && FLAKE[1] == 'l';
  }

  /** However nix writes the desired base back, with one known prefix and any trailing
      slashes, it counts as the desired base exactly when it is recognisable. */
  lemma StoredFormIsRecognised(scheme: Scheme, base: string, slashes: string)
    requires OnlySlashes(slashes)
    ensures BaseEq(Prefix(scheme) + base + slashes, base) <==> Recognisable(scheme, base)
  {
    var stored := Prefix(scheme) + base;
    SlashesDoNotMatter(stored, slashes);
    NormIsShort(base);
    DifferentSchemes(base);
    match scheme {
      case Plain =>
        assert stored == base;
      case AsFlake =>
        StripOwn(FLAKE, base);
        AfterFlake(base);
      case AsTarball =>
        StripOwn(TARBALL, base);
        AfterTarball(base);
      case AsFile =>
        StripOwn(FILE, base);
    }
  }

  /** The rest of the normalisation on a base whose first prefix stays in place. */
  lemma AfterFlake(base: string)
    ensures FLAKE <= base ==> TrimSlashes(StripPrefix(StripPrefix(base, TARBALL), FILE)) == TrimSlashes(base)
  {
    if FLAKE <= base {
      assert base[0] == FLAKE[0] && base[1] == FLAKE[1] && TARBALL[0] == 't' && FILE[1] == 'i';
    }
  }

  lemma AfterTarball(base: string)
    ensures FLAKE <= base || TARBALL <= base ==> TrimSlashes(StripPrefix(base, FILE)) == TrimSlashes(base)
  {
    if FLAKE <= base {
      assert base[1] == FLAKE[1] && FILE[1] == 'i';
    }
    if TARBALL <= base {
      assert base[0] == TARBALL[0] && FILE[0] == 'f';
    }
  }

  /** A base with nothing to take off: no known prefix in front, no slash at the end. */
  predicate IsBare(core: string) {
    && !(FLAKE <= core) && !(TARBALL <= core) && !(FILE <= core)
    && (core == [] || core[|core| - 1] != '/')
  }

  /** Every way of writing a base: up to one of each prefix, in this order, and slashes. */
  function Written(flake: bool, tarball: bool, file: bool, core: string, slashes: string): string {
    (if flake then "flake:" else "") + ((if tarball then "tarball+" else "") + ((if file then "file+" else "") + (core + slashes)))
  }

  lemma StripMaybe(prefix: string, present: bool, rest: string)
    requires present || !(prefix <= rest)
    ensures StripPrefix((if present then prefix else "") + rest, prefix) == rest
  {
    assert "" + rest == rest;
  }

  /** Slashes and the other prefixes cannot complete a prefix. */
  lemma NoPrefixAppears(core: string, slashes: string)
    requires IsBare(core) && OnlySlashes(slashes)
    ensures var rest := core + slashes; !(FLAKE <= rest) && !(TARBALL <= rest) && !(FILE <= rest)
  {
    StripPrefixAppend(core, FLAKE, slashes);
    StripPrefixAppend(core, TARBALL, slashes);
    StripPrefixAppend(core, FILE, slashes);
  }

  /** However a base is written, what is compared is the bare base. */
  lemma NormIsCore(flake: bool, tarball: bool, file: bool, core: string, slashes: string)
    requires IsBare(core) && OnlySlashes(slashes)
    ensures Norm(Written(flake, tarball, file, core, slashes)) == core
  {
    var c := core + slashes;
    var b := (if file then FILE else "") + c;
    var a := (if tarball then TARBALL else "") + b;
    NoPrefixAppears(core, slashes);
    DifferentSchemes(c);
    DifferentSchemes(b);
    assert "" + c == c && "" + b == b;
    StripMaybe(FILE, file, c);
    assert !(TARBALL <= b) && !(FLAKE <= b) && !(FLAKE <= a);
    StripMaybe(TARBALL, tarball, b);
    StripMaybe(FLAKE, flake, a);
    TrimSlashesAppend(core, slashes);
  }

  /** So two written bases count as equal exactly when their bare bases are: drift between
      genuinely different bases is always seen. */
  lemma BaseEqIffSameCore(flake: bool, tarball: bool, file: bool, core: string, slashes: string,
                          flake': bool, tarball': bool, file': bool, core': string, slashes': string)
    requires IsBare(core) && OnlySlashes(slashes) && IsBare(core') && OnlySlashes(slashes')
    ensures BaseEq(Written(flake, tarball, file, core, slashes), Written(flake', tarball', file', core', slashes'))
       <==> core == core'
  {
    NormIsCore(flake, tarball, file, core, slashes);
    NormIsCore(flake', tarball', file', core', slashes');
  }

  // ---- swapping a package over ------------------------------------------------------

  /** Element names and the URLs they were installed from. */
  type Profile = map<string, string>

  /** What the nix commands do during one call, and how nix writes the URL back. */
  datatype Nix = Nix(
    lists: bool,
    canReplace: bool,
    upgrades: bool,
    replaced: bool,
    builds: bool,
    removes: bool,
    adds: bool,
    writesBack: string)

  predicate IsCurrent(profile: Profile, pkg: string, base: string, nix: Nix) {
    nix.lists && pkg in profile && BaseEq(profile[pkg], base)
  }

  /** The outcome of `profile_install(pkg, upgrade = true)` and the new profile. */
  function Upgrade(profile: Profile, pkg: string, base: string, nix: Nix): (bool, Profile) {
    var swapped := profile[pkg := nix.writesBack];
    if IsCurrent(profile, pkg, base, nix) then (nix.upgrades, profile)
    else if nix.canReplace then (nix.replaced, if nix.replaced then swapped else profile)
    else if !nix.builds || !nix.removes then (false, profile)
    else (nix.adds, if nix.adds then swapped else profile - {pkg})
  }

  class Store {
    var profile: Profile

    constructor (initial: Profile)
      ensures profile == initial
    {
      profile := initial;
    }

    method ProfileUpgrade(pkg: string, base: string, nix: Nix) returns (ok: bool)
      modifies this
      ensures (ok, profile) == Upgrade(old(profile), pkg, base, nix)
    {
      var installed := if nix.lists && pkg in profile then Some(profile[pkg]) else None;
      if installed.Some? && BaseEq(installed.value, base) {
        return nix.upgrades;
      }
      if nix.canReplace {
        if nix.replaced {
          profile := profile[pkg := nix.writesBack];
        }
        return nix.replaced;
      }
      if !nix.builds {
        return false;
      }
      if !nix.removes {
        return false;
      }
      profile := profile - {pkg};
      if nix.adds {
        assert profile[pkg := nix.writesBack] == old(profile)[pkg := nix.writesBack];
        profile := profile[pkg := nix.writesBack];
      }
      return nix.adds;
    }
  }

  /** Every outcome leaves the old element or the new one, except that without atomic
      replace, after a successful pre-build and remove, a failed add leaves none; a
      failed pre-build changes nothing; no other element is touched; and the call reports
      what the command it came to did. */
  lemma SwapIsSafe(profile: Profile, pkg: string, base: string, nix: Nix)
    requires pkg in profile
    ensures var (ok, after) := Upgrade(profile, pkg, base, nix);
            var current := nix.lists && BaseEq(profile[pkg], base);
            && (ok <==> if current then nix.upgrades else if nix.canReplace then nix.replaced
                        else nix.builds && nix.removes && nix.adds)
            && (current ==> after == profile)
            && (ok && !current ==> after == profile[pkg := nix.writesBack])
            && (pkg !in after <==>
                !IsCurrent(profile, pkg, base, nix) && !nix.canReplace && nix.builds && nix.removes && !nix.adds)
            && (pkg in after ==> after[pkg] == profile[pkg] || (ok && after[pkg] == nix.writesBack))
            && (!ok && pkg in after ==> after == profile)
            && (!nix.builds && !nix.canReplace ==> after == profile)
            && after - {pkg} == profile - {pkg}
  {
  }

  /** The packages whose installed URL is not the desired base. */
  function Drifted(profile: Profile, packages: set<string>, base: string): set<string> {
    set name | name in profile && name in packages && !BaseEq(profile[name], base)
  }

  /** The drift part of `packages_with_upgrades`: what the dry run found, then every listed
      element that was asked about, is installed from elsewhere and is not listed yet. */
  method PackagesWithUpgrades(dryRun: Option<seq<string>>, listing: Option<Profile>, packages: set<string>, base: string)
    returns (result: seq<string>)
    ensures forall name :: name in result <==>
              || (dryRun.Some? && name in dryRun.value)
              || (listing.Some? && name in listing.value && name in packages && Norm(listing.value[name]) != Norm(base))
    ensures listing.Some? && dryRun.None? ==> forall name :: name in result <==> name in Drifted(listing.value, packages, base)
    ensures (dryRun.Some? ==> forall i, j :: 0 <= i < j < |dryRun.value| ==> dryRun.value[i] != dryRun.value[j]) ==>
              forall i, j :: 0 <= i < j < |result| ==> result[i] != result[j]
  {
    result := if dryRun.Some? then dryRun.value else [];
    ghost var start := result;
    if listing.None? {
      return;
    }
    var todo := listing.value.Keys;
    while todo != {}
      invariant todo <= listing.value.Keys
      invariant forall name :: name in result <==>
                  || name in start
                  || (name in listing.value.Keys - todo && name in packages && !BaseEq(listing.value[name], base))
      invariant (forall i, j :: 0 <= i < j < |start| ==> start[i] != start[j]) ==>
                  forall i, j :: 0 <= i < j < |result| ==> result[i] != result[j]
      decreases |todo|
    {
      var name :| name in todo;
      if name in packages && !BaseEq(listing.value[name], base) && name !in result {
        result := result + [name];
      }
      todo := todo - {name};
    }
  }

  /** After a successful upgrade the drift check no longer lists the package exactly when
      nix wrote the URL back in a recognisable form; so the upgrade loop settles. */
  lemma UpgradeSettlesDrift(profile: Profile, packages: set<string>, pkg: string, base: string, nix: Nix, scheme: Scheme, slashes: string)
    requires pkg in packages && pkg in Drifted(profile, packages, base)
    requires OnlySlashes(slashes) && nix.writesBack == Prefix(scheme) + base + slashes
    requires Upgrade(profile, pkg, base, nix).0
    ensures pkg !in Drifted(Upgrade(profile, pkg, base, nix).1, packages, base) <==> Recognisable(scheme, base)
    ensures forall other :: other != pkg ==>
              (other in Drifted(Upgrade(profile, pkg, base, nix).1, packages, base)
               <==> other in Drifted(profile, packages, base))
  {
    StoredFormIsRecognised(scheme, base, slashes);
  }

  // ---- a whole upgrade pass ------------------------------------------------------------

  /** What nix does for each package of a pass, and how it stores the base. */
  datatype Outcomes = Outcomes(nix: string -> Nix, scheme: string -> Scheme, slashes: string -> string)

  /** Every stored form is the desired base with one known prefix and trailing slashes. */
  ghost predicate StoresBase(outcomes: Outcomes, base: string) {
    forall pkg: string ::
      && OnlySlashes(outcomes.slashes(pkg))
      && outcomes.nix(pkg).writesBack == Prefix(outcomes.scheme(pkg)) + base + outcomes.slashes(pkg)
  }

  /** Upgrade one package after the other; the flag tells whether every call succeeded. */
  function UpgradePass(profile: Profile, todo: seq<string>, base: string, outcomes: Outcomes): (bool, Profile)
    decreases |todo|
  {
    if todo == [] then
      (true, profile)
    else
      var (ok, next) := Upgrade(profile, todo[0], base, outcomes.nix(todo[0]));
      var (rest, after) := UpgradePass(next, todo[1..], base, outcomes);
      (ok && rest, after)
  }

  /** One call of a pass settles its own package and touches no other. */
  lemma UpgradeOne(profile: Profile, pkg: string, base: string, outcomes: Outcomes)
    requires StoresBase(outcomes, base) && pkg in profile && !BaseEq(profile[pkg], base)
    requires Upgrade(profile, pkg, base, outcomes.nix(pkg)).0
    ensures var after := Upgrade(profile, pkg, base, outcomes.nix(pkg)).1;
            && after == profile[pkg := outcomes.nix(pkg).writesBack]
            && (BaseEq(after[pkg], base) <==> Recognisable(outcomes.scheme(pkg), base))
  {
    StoredFormIsRecognised(outcomes.scheme(pkg), base, outcomes.slashes(pkg));
  }

  /** The profile after a successful pass over distinct drifted packages. */
  lemma {:induction false} PassRewrites(profile: Profile, todo: seq<string>, base: string, outcomes: Outcomes, name: string)
    requires StoresBase(outcomes, base) && UpgradePass(profile, todo, base, outcomes).0
    requires forall pkg :: pkg in todo ==> pkg in profile && !BaseEq(profile[pkg], base)
    requires forall i, j :: 0 <= i < j < |todo| ==> todo[i] != todo[j]
    ensures var after := UpgradePass(profile, todo, base, outcomes).1;
            && (name in after <==> name in profile)
            && (name in profile && name !in todo ==> after[name] == profile[name])
            && (name in todo ==> (BaseEq(after[name], base) <==> Recognisable(outcomes.scheme(name), base)))
    decreases |todo|
  {
    if todo != [] {
      var pkg := todo[0];
      assert pkg in todo;
      UpgradeOne(profile, pkg, base, outcomes);
      var next := Upgrade(profile, pkg, base, outcomes.nix(pkg)).1;
      forall p | p in todo[1..] ensures p in next && !BaseEq(next[p], base) {
        var i :| 0 <= i < |todo[1..]| && todo[1..][i] == p;
        assert todo[0] != todo[i + 1];
      }
      PassRewrites(next, todo[1..], base, outcomes, name);
    }
  }

  /** The drift check after a successful pass over everything it listed, in any order:
      it lists exactly the packages stored in an unrecognisable form, so it lists none
      if and only if every stored form is recognisable. */
  lemma PassSettlesDrift(profile: Profile, packages: set<string>, todo: seq<string>, base: string, outcomes: Outcomes)
    requires StoresBase(outcomes, base) && UpgradePass(profile, todo, base, outcomes).0
    requires forall pkg :: pkg in todo <==> pkg in Drifted(profile, packages, base)
    requires forall i, j :: 0 <= i < j < |todo| ==> todo[i] != todo[j]
    ensures var after := UpgradePass(profile, todo, base, outcomes).1;
            && (forall pkg :: pkg in Drifted(after, packages, base) <==>
                              pkg in todo && !Recognisable(outcomes.scheme(pkg), base))
            && (Drifted(after, packages, base) == {} <==>
                forall pkg :: pkg in todo ==> Recognisable(outcomes.scheme(pkg), base))
  {
    var after := UpgradePass(profile, todo, base, outcomes).1;
    forall pkg
      ensures pkg in Drifted(after, packages, base) <==> pkg in todo && !Recognisable(outcomes.scheme(pkg), base)
    {
      PassRewrites(profile, todo, base, outcomes, pkg);
    }
    if pkg :| pkg in todo && !Recognisable(outcomes.scheme(pkg), base) {
      assert pkg in Drifted(after, packages, base);
    }
  }

  /** Where nothing drifts, a pass over installed packages, whichever upgrades come up,
      stays in place: the profile's elements and URLs are the same, whatever nix does,
      as long as the profile can be listed. */
  lemma {:induction false} SettledPassStaysInPlace(profile: Profile, packages: set<string>, todo: seq<string>, base: string, outcomes: Outcomes)
    requires Drifted(profile, packages, base) == {}
    requires forall pkg :: pkg in todo ==> pkg in packages && pkg in profile && outcomes.nix(pkg).lists
    ensures UpgradePass(profile, todo, base, outcomes).1 == profile
    ensures forall pkg :: pkg in todo ==> IsCurrent(profile, pkg, base, outcomes.nix(pkg))
    decreases |todo|
  {
    if todo != [] {
      assert todo[0] in todo && todo[0] !in Drifted(profile, packages, base);
      SettledPassStaysInPlace(profile, packages, todo[1..], base, outcomes);
      assert todo == [todo[0]] + todo[1..];
    }
  }
}
