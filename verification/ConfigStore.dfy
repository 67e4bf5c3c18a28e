/** Config providers with change detection
    (mac-mgmt-agent/src/config_providers.rs `ConfigStore`). */
module ConfigStore {
  import opened Prelude
  import opened Documents

  /** A provider's value and its version counter. */
  datatype Entry = Entry(value: Json, version: nat)

  type Providers = map<string, Entry>

  /** Version 0 stands for "never set". */
  function VersionOf(providers: Providers, name: string): nat {
    if name in providers then providers[name].version else 0
  }

  function ValueOf(providers: Providers, name: string): Option<Json> {
    if name in providers then Some(providers[name].value) else None
  }

  predicate Effective(providers: Providers, name: string, value: Json) {
    ValueOf(providers, name) != Some(value)
  }

  function AfterSet(providers: Providers, name: string, value: Json): Providers {
    if Effective(providers, name, value)
    then providers[name := Entry(value, VersionOf(providers, name) + 1)]
    else providers
  }

  /** The versions a connector last ran with. */
  type Snapshot = map<string, nat>

  function SeenVersion(snapshot: Snapshot, name: string): nat {
    if name in snapshot then snapshot[name] else 0
  }

  function Values(providers: Providers): map<string, Json> {
    map name | name in providers :: providers[name].value
  }

  /** Providers restored from a cache file start at version 1. */
  function Restored(cache: map<string, Json>): Providers {
    map name | name in cache :: Entry(cache[name], 1)
  }

  class Store {
    var providers: Providers
    /** The cache file, if a path is configured and something was written. */
    var cache: Option<map<string, Json>>
    const caches: bool

    /** Every provider has been set at least once. */
    ghost predicate Valid()
      reads this
    {
      forall name :: name in providers ==> providers[name].version > 0
    }

    constructor (caches: bool, onDisk: Option<map<string, Json>>)
      ensures Valid() && this.caches == caches && cache == onDisk
      ensures providers == if caches && onDisk.Some? then Restored(onDisk.value) else map[]
    {
      this.caches := caches;
      cache := onDisk;
      providers := if caches && onDisk.Some? then Restored(onDisk.value) else map[];
    }

    /** `set`, with the outcome of the cache write. */
    method Set(name: string, value: Json, cacheWritten: bool) returns (changed: bool)
      requires Valid()
      modifies this
      ensures Valid() && providers == AfterSet(old(providers), name, value)
      ensures changed <==> Effective(old(providers), name, value)
      ensures cache == if changed && caches && cacheWritten then Some(Values(providers)) else old(cache)
    {
      if name in providers && providers[name].value == value {
        return false;
      }
      var version := if name in providers then providers[name].version + 1 else 1;
      providers := providers[name := Entry(value, version)];
      if caches && cacheWritten {
        cache := Some(Values(providers));
      }
      return true;
    }

    method Get(name: string) returns (value: Option<Json>)
      ensures value == ValueOf(providers, name)
    {
      return if name in providers then Some(providers[name].value) else None;
    }

    method AllAvailable(names: seq<string>) returns (all: bool)
      ensures all <==> forall n :: n in names ==> ValueOf(providers, n).Some?
    {
      return forall n :: n in names ==> n in providers;
    }

    method ValuesFor(names: seq<string>) returns (values: map<string, Json>)
      ensures forall n :: n in values <==> n in names && ValueOf(providers, n).Some?
      ensures forall n :: n in values ==> ValueOf(providers, n) == Some(values[n])
    {
      values := map[];
      var i := 0;
      while i < |names|
        invariant 0 <= i <= |names|
        invariant forall n :: n in values <==> n in names[..i] && n in providers
        invariant forall n :: n in values ==> n in providers && values[n] == providers[n].value
      {
        assert names[..i + 1] == names[..i] + [names[i]];
        if names[i] in providers {
          values := values[names[i] := providers[names[i]].value];
        }
        i := i + 1;
      }
      assert names[..i] == names;
    }

    method TakeSnapshot(names: seq<string>) returns (snapshot: Snapshot)
      ensures forall name :: name in names ==> SeenVersion(snapshot, name) == VersionOf(providers, name)
    {
      snapshot := map[];
      var i := 0;
      while i < |names|
        invariant 0 <= i <= |names|
        invariant forall n :: n in snapshot ==> n in providers && snapshot[n] == providers[n].version
        invariant forall j :: 0 <= j < i && names[j] in providers ==> names[j] in snapshot
      {
        if names[i] in providers {
          snapshot := snapshot[names[i] := providers[names[i]].version];
        }
        i := i + 1;
      }
    }

    method AnyChanged(names: seq<string>, snapshot: Snapshot) returns (changed: bool)
      ensures changed <==> exists n :: n in names && VersionOf(providers, n) != SeenVersion(snapshot, n)
    {
      var i := 0;
      while i < |names|
        invariant 0 <= i <= |names|
        invariant forall j :: 0 <= j < i ==> VersionOf(providers, names[j]) == SeenVersion(snapshot, names[j])
      {
        if VersionOf(providers, names[i]) != SeenVersion(snapshot, names[i]) {
          return true;
        }
        i := i + 1;
      }
      return false;
    }
  }

  // ---- runs ------------------------------------------------------------------------

  datatype SetCall = SetCall(name: string, value: Json)

  function AfterSets(providers: Providers, calls: seq<SetCall>): Providers
    decreases |calls|
  {
    if calls == [] then providers
    else AfterSets(AfterSet(providers, calls[0].name, calls[0].value), calls[1..])
  }

  /** The values given to one name, in order. */
  function Given(calls: seq<SetCall>, name: string): seq<Json> {
    if calls == [] then [] else (if calls[0].name == name then [calls[0].value] else []) + Given(calls[1..], name)
  }

  /** How often a value differs from the one before it. */
  function Changes(before: Option<Json>, values: seq<Json>): nat
    decreases |values|
  {
    if values == [] then 0
    else (if before == Some(values[0]) then 0 else 1) + Changes(Some(values[0]), values[1..])
  }

  function LastOf(values: seq<Json>, start: Option<Json>): Option<Json> {
    if values == [] then start else Some(values[|values| - 1])
  }

  lemma GivenCons(value: Json, rest: seq<Json>, start: Option<Json>)
    ensures LastOf([value] + rest, start) == LastOf(rest, Some(value))
    ensures Changes(start, [value] + rest) == (if start == Some(value) then 0 else 1) + Changes(Some(value), rest)
  {
    assert ([value] + rest)[1..] == rest;
  }

  lemma SetIs(providers: Providers, call: SetCall, name: string)
    ensures var next := AfterSet(providers, call.name, call.value);
            if call.name != name then ValueOf(next, name) == ValueOf(providers, name) && VersionOf(next, name) == VersionOf(providers, name)
            else && ValueOf(next, name) == Some(call.value)
                 && VersionOf(next, name) == VersionOf(providers, name) + (if ValueOf(providers, name) == Some(call.value) then 0 else 1)
  {
  }

  /** Over every run a `get` answers with the last value given to the name, and the version
      has grown by the number of times the given values changed. */
  lemma {:induction false} LastValueIsKept(providers: Providers, calls: seq<SetCall>, name: string)
    ensures ValueOf(AfterSets(providers, calls), name) == LastOf(Given(calls, name), ValueOf(providers, name))
    ensures VersionOf(AfterSets(providers, calls), name)
         == VersionOf(providers, name) + Changes(ValueOf(providers, name), Given(calls, name))
    decreases |calls|
  {
    if calls != [] {
      var call, rest := calls[0], Given(calls[1..], name);
      SetIs(providers, call, name);
      LastValueIsKept(AfterSet(providers, call.name, call.value), calls[1..], name);
      if call.name == name {
        GivenCons(call.value, rest, ValueOf(providers, name));
      } else {
        assert [] + rest == rest;
      }
    }
  }

  lemma {:induction false} NoChangeNoDifference(before: Option<Json>, values: seq<Json>)
    requires Changes(before, values) == 0
    ensures values == [] || before == Some(values[|values| - 1])
    decreases |values|
  {
    if values != [] {
      NoChangeNoDifference(Some(values[0]), values[1..]);
    }
  }

  /** Change detection is exact over every run of `set` calls since a snapshot: a change
      is reported exactly when the values given to some named provider changed, even if they
      changed back; and if none is reported every named value is as it was. */
  lemma ChangeDetectionIsExact(providers: Providers, calls: seq<SetCall>, names: seq<string>, snapshot: Snapshot)
    requires forall n :: n in names ==> SeenVersion(snapshot, n) == VersionOf(providers, n)
    ensures var now := AfterSets(providers, calls);
            var reported := exists n :: n in names && VersionOf(now, n) != SeenVersion(snapshot, n);
            && (reported <==> exists n :: n in names && Changes(ValueOf(providers, n), Given(calls, n)) > 0)
            && (!reported ==> forall n :: n in names ==> ValueOf(now, n) == ValueOf(providers, n))
  {
    var now := AfterSets(providers, calls);
    forall n
      ensures VersionOf(now, n) == VersionOf(providers, n) + Changes(ValueOf(providers, n), Given(calls, n))
      ensures VersionOf(now, n) == VersionOf(providers, n) ==> ValueOf(now, n) == ValueOf(providers, n)
    {
      LastValueIsKept(providers, calls, n);
      if Changes(ValueOf(providers, n), Given(calls, n)) == 0 {
        NoChangeNoDifference(ValueOf(providers, n), Given(calls, n));
      }
    }
  }

  /** Over every run from an empty store, an empty snapshot reports a change exactly when
      some named provider has been set: a first run with nothing set reports none. */
  lemma FirstRunReportsWhatIsSet(calls: seq<SetCall>, names: seq<string>)
    ensures var now := AfterSets(map[], calls);
            (exists n :: n in names && VersionOf(now, n) != SeenVersion(map[], n)) <==>
            exists n :: n in names && Given(calls, n) != []
  {
    var now := AfterSets(map[], calls);
    forall n ensures VersionOf(now, n) != 0 <==> Given(calls, n) != [] {
      LastValueIsKept(map[], calls, n);
    }
  }

  /** The cache file after a run in which every cache write succeeds. */
  function CacheAfter(providers: Providers, calls: seq<SetCall>, cache: Option<map<string, Json>>): Option<map<string, Json>>
    decreases |calls|
  {
    if calls == [] then cache
    else
      var next := AfterSet(providers, calls[0].name, calls[0].value);
      CacheAfter(next, calls[1..],
                 if Effective(providers, calls[0].name, calls[0].value) then Some(Values(next)) else cache)
  }

  function Reopened(cache: Option<map<string, Json>>): Providers {
    if cache.Some? then Restored(cache.value) else map[]
  }

  /** A store reopened from its cache answers every `get` as the one that wrote it. */
  lemma {:induction false} ReopenedStoreAgrees(providers: Providers, calls: seq<SetCall>, cache: Option<map<string, Json>>, name: string)
    requires forall n :: ValueOf(Reopened(cache), n) == ValueOf(providers, n)
    ensures ValueOf(Reopened(CacheAfter(providers, calls, cache)), name) == ValueOf(AfterSets(providers, calls), name)
    decreases |calls|
  {
    if calls != [] {
      var next := AfterSet(providers, calls[0].name, calls[0].value);
      ReopenedStoreAgrees(next, calls[1..],
                          if Effective(providers, calls[0].name, calls[0].value) then Some(Values(next)) else cache, name);
    }
  }
}
