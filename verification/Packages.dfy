/** Package synchronisation (daemon/src/packages.rs `sync_packages`): one reconcile
    round over the state file, the nix profile and the server's desired set. */
module Packages {

  type Name = string

  /** What the host holds: profile elements, and the packages its state file records. */
  datatype Host = Host(profile: set<Name>, recorded: set<Name>)

  /** One round: the server's answer and everything the environment decides. `lost`
      are packages whose failed upgrade left them out of the profile. */
  datatype Round = Round(
    desired: set<Name>,
    listingWorks: bool,
    installFails: set<Name>,
    removeFails: set<Name>,
    upgradable: set<Name>,
    upgradeFails: set<Name>,
    lost: set<Name>,
    stateWritten: bool)

  /** What the profile listing shows; an error shows nothing. */
  function Installed(host: Host, round: Round): set<Name> {
    if round.listingWorks then host.profile else {}
  }

  /** Desired and recorded, but not in a non-empty listing. */
  function Missing(host: Host, round: Round): set<Name> {
    var installed := Installed(host, round);
    if installed == {} then {} else round.desired * host.recorded - installed
  }

  function Upgrades(host: Host, round: Round): set<Name> {
    round.desired * host.recorded * round.upgradable
  }

  /** The host after one round. */
  function After(host: Host, round: Round): Host {
    var added := (Missing(host, round) + (round.desired - host.recorded)) - round.installFails;
    var removed := host.recorded - round.desired - round.removeFails;
    var upgrades := Upgrades(host, round);
    var profile := (host.profile + added - removed)
                   + (upgrades - round.upgradeFails) - (upgrades * round.upgradeFails * round.lost);
    Host(profile, if round.stateWritten then round.desired else host.recorded)
  }

  class Machine {
    var profile: set<Name>
    var recorded: set<Name>

    constructor (host: Host)
      ensures profile == host.profile && recorded == host.recorded
    {
      profile := host.profile;
      recorded := host.recorded;
    }

    method InstallAll(wanted: set<Name>, fails: set<Name>)
      modifies this`profile
      ensures profile == old(profile) + (wanted - fails)
    {
      var todo := wanted;
      while todo != {}
        invariant todo <= wanted
        invariant profile == old(profile) + (wanted - todo - fails)
        decreases |todo|
      {
        var pkg :| pkg in todo;
        if pkg !in fails {
          profile := profile + {pkg};
        }
        todo := todo - {pkg};
      }
    }

    method RemoveAll(unwanted: set<Name>, fails: set<Name>)
      modifies this`profile
      ensures profile == old(profile) - (unwanted - fails)
    {
      var todo := unwanted;
      while todo != {}
        invariant todo <= unwanted
        invariant profile == old(profile) - (unwanted - todo - fails)
        decreases |todo|
      {
        var pkg :| pkg in todo;
        if pkg !in fails {
          profile := profile - {pkg};
        }
        todo := todo - {pkg};
      }
    }

    method UpgradeAll(upgrades: set<Name>, fails: set<Name>, lost: set<Name>)
      modifies this`profile
      ensures profile == old(profile) + (upgrades - fails) - (upgrades * fails * lost)
    {
      var todo := upgrades;
      while todo != {}
        invariant todo <= upgrades
        invariant profile == old(profile) + (upgrades - todo - fails) - ((upgrades - todo) * fails * lost)
        decreases |todo|
      {
        var pkg :| pkg in todo;
        if pkg !in fails {
          profile := profile + {pkg};
        } else if pkg in lost {
          profile := profile - {pkg};
        }
        todo := todo - {pkg};
      }
    }

    method SyncPackages(round: Round)
      modifies this
      ensures Host(profile, recorded) == After(old(Host(profile, recorded)), round)
    {
      ghost var host := Host(profile, recorded);
      var installed := if round.listingWorks then profile else {};
      if installed != {} {
        InstallAll(round.desired * recorded - installed, round.installFails);
      }
      assert profile == host.profile + (Missing(host, round) - round.installFails);
      InstallAll(round.desired - recorded, round.installFails);
      RemoveAll(recorded - round.desired, round.removeFails);
      UpgradeAll(round.desired * recorded * round.upgradable, round.upgradeFails, round.lost);
      if round.stateWritten {
        recorded := round.desired;
      }
    }
  }

  // ---- one round -------------------------------------------------------------------

  predicate FailureFree(round: Round) {
    round.listingWorks && round.installFails == {} && round.removeFails == {} && round.upgradeFails == {} && round.stateWritten
  }

  /** A round touches only packages that are recorded or desired. */
  lemma OthersUntouched(host: Host, round: Round, pkg: Name)
    requires pkg !in host.recorded && pkg !in round.desired
    ensures pkg in After(host, round).profile <==> pkg in host.profile
    ensures pkg !in After(host, round).recorded
  {
  }

  /** What one round does to each package, by what is recorded and desired. A newly desired
      one is there if it was or could be installed. A desired one on record that was there
      stays unless a failed upgrade lost it; one that was not there comes back by the
      reinstall, if a non-empty listing shows it missing and the install works, or by an
      upgrade. One no longer desired stays only if its removal failed. Nothing else moves. */
  lemma PackageAfterRound(host: Host, round: Round, pkg: Name)
    ensures var after := After(host, round);
            var wanted, known, was, now := pkg in round.desired, pkg in host.recorded, pkg in host.profile, pkg in after.profile;
            var upgraded := pkg in round.upgradable && pkg !in round.upgradeFails;
            var lost := pkg in round.upgradable && pkg in round.upgradeFails && pkg in round.lost;
            var reinstalled := round.listingWorks && host.profile != {} && pkg !in round.installFails;
            && (wanted && !known ==> (now <==> was || pkg !in round.installFails))
            && (wanted && known && was ==> (now <==> !lost))
            && (wanted && known && !was ==> (now <==> (reinstalled || upgraded) && !lost))
            && (!wanted && known ==> (now <==> was && pkg in round.removeFails))
            && (!wanted && !known ==> (now <==> was))
            && (pkg in after.recorded <==> if round.stateWritten then wanted else known)
  {
  }

  /** A failure-free round removes everything recorded but no longer desired, records
      exactly the desired set, and brings in every desired package, exactly unless the
      profile was empty while the state file claimed a desired package that no upgrade
      brings back. */
  lemma CleanRoundConverges(host: Host, round: Round)
    requires FailureFree(round)
    ensures After(host, round).recorded == round.desired
    ensures After(host, round).profile !! (host.recorded - round.desired)
    ensures round.desired <= After(host, round).profile <==>
            host.profile != {} || round.desired * host.recorded <= round.upgradable
  {
    var after := After(host, round);
    if host.profile == {} && !(round.desired * host.recorded <= round.upgradable) {
      var pkg :| pkg in round.desired * host.recorded && pkg !in round.upgradable;
      assert pkg !in after.profile;
    }
  }

  // ---- histories -------------------------------------------------------------------

  function AfterAll(host: Host, rounds: seq<Round>): Host
    decreases |rounds|
  {
    if rounds == [] then host else AfterAll(After(host, rounds[0]), rounds[1..])
  }

  /** Over any history of rounds, with any failures, a package that was never recorded
      and never desired stays exactly as it was. */
  lemma {:induction false} OthersUntouchedEver(host: Host, rounds: seq<Round>, pkg: Name)
    requires pkg !in host.recorded && forall r :: r in rounds ==> pkg !in r.desired
    ensures pkg in AfterAll(host, rounds).profile <==> pkg in host.profile
    ensures pkg !in AfterAll(host, rounds).recorded
    decreases |rounds|
  {
    if rounds != [] {
      assert rounds[0] in rounds;
      OthersUntouched(host, rounds[0], pkg);
      OthersUntouchedEver(After(host, rounds[0]), rounds[1..], pkg);
    }
  }

  /** Repeating failure-free rounds with an unchanged desired set, whatever upgrades come
      up, changes nothing once everything desired is there and recorded. */
  lemma {:induction false} SettledStays(host: Host, rounds: seq<Round>)
    requires host.recorded <= host.profile
    requires forall r :: r in rounds ==> FailureFree(r) && r.desired == host.recorded
    ensures AfterAll(host, rounds) == host
    decreases |rounds|
  {
    if rounds != [] {
      assert rounds[0] in rounds;
      assert After(host, rounds[0]) == host;
      SettledStays(host, rounds[1..]);
    }
  }

  lemma {:induction false} AfterAllAppend(host: Host, rounds: seq<Round>, more: seq<Round>)
    ensures AfterAll(host, rounds + more) == AfterAll(AfterAll(host, rounds), more)
    decreases |rounds|
  {
    if rounds == [] {
      assert rounds + more == more;
    } else {
      assert (rounds + more)[1..] == rounds[1..] + more;
      AfterAllAppend(After(host, rounds[0]), rounds[1..], more);
    }
  }

  /** After any history, one failure-free round on a non-empty profile converges, and
      any number of further ones, with whatever upgrades, changes nothing more. */
  lemma ConvergesAfterAnyHistory(host: Host, rounds: seq<Round>, last: Round, again: seq<Round>)
    requires FailureFree(last) && forall r :: r in again ==> FailureFree(r) && r.desired == last.desired
    requires AfterAll(host, rounds).profile != {}
    ensures var before := AfterAll(host, rounds);
            var after := AfterAll(host, rounds + [last] + again);
            && last.desired <= after.profile && after.recorded == last.desired
            && after.profile !! (before.recorded - last.desired)
            && after == After(before, last)
  {
    var before := AfterAll(host, rounds);
    CleanRoundConverges(before, last);
    AfterAllAppend(host, rounds, [last]);
    assert AfterAll(before, [last]) == After(before, last);
    AfterAllAppend(host, rounds + [last], again);
    SettledStays(After(before, last), again);
  }

  // ---- what becomes of a package nobody wants any more -------------------------------

  /** Every round tries to remove the package until one succeeds or one fails and still
      writes the state file, which forgets the package. */
  predicate Kept(rounds: seq<Round>, pkg: Name)
    decreases |rounds|
  {
    rounds == [] || (pkg in rounds[0].removeFails && (rounds[0].stateWritten || Kept(rounds[1..], pkg)))
  }

  /** Exactly when a managed package outlives the rounds that no longer ask for it. */
  lemma {:induction false} UnwantedStaysIffKept(host: Host, rounds: seq<Round>, pkg: Name)
    requires pkg in host.profile && pkg in host.recorded && forall r :: r in rounds ==> pkg !in r.desired
    ensures pkg in AfterAll(host, rounds).profile <==> Kept(rounds, pkg)
    decreases |rounds|
  {
    if rounds != [] {
      var round, after := rounds[0], After(host, rounds[0]);
      assert round in rounds;
      if pkg !in round.removeFails {
        GoneStaysGone(after, rounds[1..], pkg);
      } else if round.stateWritten {
        OthersUntouchedEver(after, rounds[1..], pkg);
      } else {
        UnwantedStaysIffKept(after, rounds[1..], pkg);
      }
    }
  }

  /** A package that is gone and not asked for does not come back. */
  lemma {:induction false} GoneStaysGone(host: Host, rounds: seq<Round>, pkg: Name)
    requires pkg !in host.profile && forall r :: r in rounds ==> pkg !in r.desired
    ensures pkg !in AfterAll(host, rounds).profile
    decreases |rounds|
  {
    if rounds != [] {
      assert rounds[0] in rounds;
      GoneStaysGone(After(host, rounds[0]), rounds[1..], pkg);
    }
  }

  /** Round `i` forgets the package: its removal fails there while the state file is
      written, and every earlier round failed at both. */
  predicate ForgottenIn(rounds: seq<Round>, pkg: Name, i: nat) {
    && i < |rounds| && pkg in rounds[i].removeFails && rounds[i].stateWritten
    && forall j :: 0 <= j < i ==> pkg in rounds[j].removeFails && !rounds[j].stateWritten
  }

  /** Once some round removes without failing, kept means forgotten before. */
  lemma {:induction false} KeptIffForgotten(rounds: seq<Round>, last: Round, pkg: Name)
    requires pkg !in last.removeFails
    ensures Kept(rounds + [last], pkg) <==> exists i: nat :: ForgottenIn(rounds, pkg, i)
    decreases |rounds|
  {
    if rounds != [] {
      var tail := rounds[1..];
      assert (rounds + [last])[1..] == tail + [last];
      KeptIffForgotten(tail, last, pkg);
      if i: nat :| ForgottenIn(rounds, pkg, i) {
        assert i > 0 ==> ForgottenIn(tail, pkg, i - 1);
      }
      if pkg in rounds[0].removeFails && !ForgottenIn(rounds, pkg, 0) {
        if i: nat :| ForgottenIn(tail, pkg, i) {
          assert ForgottenIn(rounds, pkg, i + 1);
        }
      }
    }
  }

  /** What convergence does not give: after a final failure-free round a package nobody
      asked for is still there exactly when some earlier round forgot it. No later round
      removes it then. */
  lemma FailedRemovalIsForgotten(host: Host, rounds: seq<Round>, last: Round, pkg: Name)
    requires pkg in host.profile && pkg in host.recorded
    requires FailureFree(last) && forall r :: r in rounds + [last] ==> pkg !in r.desired
    ensures pkg in AfterAll(host, rounds + [last]).profile <==> exists i: nat :: ForgottenIn(rounds, pkg, i)
  {
    UnwantedStaysIffKept(host, rounds + [last], pkg);
    KeptIffForgotten(rounds, last, pkg);
  }
}
