/** Read, merge, validate, write and roll back a dotenv file:
    `Validator::merge_validate_and_write` of mac-mgmt-agent/src/validator.rs. */
module EnvFiles {
  import opened Prelude
  import opened Text
  import opened Documents
  import opened DeepMerge
  import opened DotEnv

  /** The step that made a write fail. */
  datatype Stage = Reading | Parsing | Validating | Writing | Command | RollingBack

  /** What the environment decides during one write. */
  datatype World = World(
    readable: bool,
    schemaAccepts: Json -> bool,
    written: bool,
    commandPasses: bool,
    rolledBack: bool)

  /** A missing file is read as an empty one. */
  function Backup(before: Option<string>): string {
    if before.Some? then before.value else ""
  }

  /** The result of one call and the file it leaves behind. */
  ghost function Outcome(before: Option<string>, patch: Json, world: World): (Result<(), Stage>, Option<string>) {
    if before.Some? && !world.readable then
      (Err(Reading), before)
    else if Parse(Backup(before)).Err? then
      (Err(Parsing), before)
    else
      var merged := Merge(Obj(Parse(Backup(before)).value), patch);
      if !ValidateEnv(merged) || !world.schemaAccepts(merged) then
        (Err(Validating), before)
      else if !world.written then
        (Err(Writing), before)
      else if world.commandPasses then
        (Ok(()), PrintedText(merged))
      else if world.rolledBack then
        (Err(Command), Some(Backup(before)))
      else
        (Err(RollingBack), PrintedText(merged))
  }

  ghost function PrintedText(merged: Json): (text: Option<string>)
    requires ValidateEnv(merged)
    ensures text.Some? && Print(merged.fields) == Ok(text.value)
  {
    ValidPrints(merged);
    Some(Print(merged.fields).value)
  }

  class EnvFile {
    var content: Option<string>

    constructor (initial: Option<string>)
      ensures content == initial
    {
      content := initial;
    }

    method MergeValidateAndWrite(patch: Json, world: World) returns (result: Result<(), Stage>)
      modifies this
      ensures (result, content) == Outcome(old(content), patch, world)
    {
      var backup := "";
      if content.Some? {
        if !world.readable {
          return Err(Reading);
        }
        backup := content.value;
      }
      var existing := ParseEnv(backup);
      if existing.Err? {
        return Err(Parsing);
      }
      var merged := MergeJson(existing.value, patch);
      if !ValidateEnv(merged) || !world.schemaAccepts(merged) {
        return Err(Validating);
      }
      var printed := SerializeEnv(merged);
      ValidPrints(merged);
      if !world.written {
        return Err(Writing);
      }
      content := Some(printed.value);
      if !world.commandPasses {
        if !world.rolledBack {
          return Err(RollingBack);
        }
        content := Some(backup);
        return Err(Command);
      }
      return Ok(());
    }
  }

  /** What the patched file is meant to hold under one key: the patch's value as
      text, nothing for a null, the old value otherwise. */
  function Patched(saved: map<string, Json>, patch: Json, key: string): Option<Json> {
    if patch.Obj? && key in patch.fields then Literal(patch.fields[key]) else Lookup(saved, key)
  }

  predicate LosesBlanks(patch: Json) {
    patch.Obj? && exists k :: k in patch.fields && patch.fields[k].Str? && EndsBlank(patch.fields[k].text)
  }

  /** A merged document that validates comes from an object patch of scalars. */
  lemma ValidMergeIsFlat(saved: map<string, Json>, patch: Json)
    requires forall k :: k in saved ==> !saved[k].Obj?
    requires ValidateEnv(Merge(Obj(saved), patch))
    ensures patch.Obj?
    ensures var merged := Merge(Obj(saved), patch).fields;
            forall k :: Lookup(merged, k) == if k in patch.fields then Some(patch.fields[k]) else Lookup(saved, k)
  {
  }

  lemma StoredAt(saved: map<string, Json>, patch: Json, k: string)
    requires forall key :: key in saved ==> IsParsedEntry(key, saved[key])
    requires patch.Obj? && ValidateEnv(Merge(Obj(saved), patch))
    ensures var merged := Merge(Obj(saved), patch).fields;
            (if k in merged then Stored(merged[k]) else None)
            == if k in patch.fields then Stored(patch.fields[k]) else Lookup(saved, k)
  {
    ValidMergeIsFlat(saved, patch);
    var merged := Merge(Obj(saved), patch).fields;
    assert Lookup(merged, k) == if k in patch.fields then Some(patch.fields[k]) else Lookup(saved, k);
    if k in saved {
      ParsedIsStored(k, saved[k]);
    }
  }

  /** What the printed merge reads back as: the patched keys as they are stored, the
      others as they were. */
  lemma PrintedLookups(content: string, patch: Json)
    requires Parse(content).Ok? && ValidateEnv(Merge(Obj(Parse(content).value), patch))
    ensures patch.Obj?
    ensures var text := PrintedText(Merge(Obj(Parse(content).value), patch)).value;
            Parse(text).Ok? &&
            forall k :: Lookup(Parse(text).value, k) ==
                        if k in patch.fields then Stored(patch.fields[k]) else Lookup(Parse(content).value, k)
  {
    var saved := Parse(content).value;
    ParseIsClean(content);
    ValidMergeIsFlat(saved, patch);
    var merged := Merge(Obj(saved), patch).fields;
    PrintThenParse(merged) by {
      ValidPrints(Obj(merged));
    }
    forall k ensures (if k in merged then Stored(merged[k]) else None)
                     == if k in patch.fields then Stored(patch.fields[k]) else Lookup(saved, k)
    {
      StoredAt(saved, patch, k);
    }
  }

  /** After a successful write the file parses to exactly the old entries with the
      patched keys set and the null keys gone, if and only if no patched string ends
      in a blank. */
  lemma WriteAppliesPatch(before: Option<string>, patch: Json, world: World)
    requires Outcome(before, patch, world).0.Ok?
    ensures Parse(Backup(before)).Ok?
    ensures var after := Outcome(before, patch, world).1;
            after.Some? && Parse(after.value).Ok?
    ensures var saved, now := Parse(Backup(before)).value, Parse(Outcome(before, patch, world).1.value).value;
            (forall k :: Lookup(now, k) == Patched(saved, patch, k)) <==> !LosesBlanks(patch)
  {
    var saved := Parse(Backup(before)).value;
    PrintedLookups(Backup(before), patch);
    var now := Parse(Outcome(before, patch, world).1.value).value;
    forall k
      ensures Lookup(now, k) == Patched(saved, patch, k) <==>
              !(k in patch.fields && patch.fields[k].Str? && EndsBlank(patch.fields[k].text))
    {
      if k in patch.fields {
        StoredLiterally(patch.fields[k]);
      }
    }
  }

  /** The call gets as far as replacing the file. */
  ghost predicate Replaces(before: Option<string>, patch: Json, world: World) {
    && (before.Some? ==> world.readable)
    && Parse(Backup(before)).Ok?
    && (var merged := Merge(Obj(Parse(Backup(before)).value), patch);
        ValidateEnv(merged) && world.schemaAccepts(merged) && world.written)
  }

  /** For every call, in terms of what it is given: it succeeds exactly when the file is
      replaced and the command passes; and it leaves the file as it was exactly when it
      does not replace it, or rolls a file that existed back, or prints the text that
      was there. Rolling back a missing file creates an empty one. */
  lemma FailureRestores(before: Option<string>, patch: Json, world: World)
    ensures var (result, after) := Outcome(before, patch, world);
            && (result.Ok? <==> Replaces(before, patch, world) && world.commandPasses)
            && (after == before <==>
                || !Replaces(before, patch, world)
                || (if !world.commandPasses && world.rolledBack then before.Some?
                    else before == PrintedText(Merge(Obj(Parse(Backup(before)).value), patch))))
            && (after == Some("") <== Replaces(before, patch, world) && !world.commandPasses && world.rolledBack && before.None?)
  {
  }

  /** Where a failed call fails, in terms of what it is given, and that a rejected document
      never reaches the file. */
  lemma FailuresAreExact(before: Option<string>, patch: Json, world: World)
    ensures var result := Outcome(before, patch, world).0;
            var readable := before.Some? ==> world.readable;
            var parses := readable && Parse(Backup(before)).Ok?;
            && (result == Err(Reading) <==> before.Some? && !world.readable)
            && (result == Err(Parsing) <==> readable && Parse(Backup(before)).Err?)
            && (result == Err(Validating) <==>
                parses && (var merged := Merge(Obj(Parse(Backup(before)).value), patch);
                           !ValidateEnv(merged) || !world.schemaAccepts(merged)))
            && (result == Err(Writing) <==>
                !Replaces(before, patch, world) && Replaces(before, patch, world.(written := true)))
            && (result == Err(Command) <==> Replaces(before, patch, world) && !world.commandPasses && world.rolledBack)
            && (result == Err(RollingBack) <==> Replaces(before, patch, world) && !world.commandPasses && !world.rolledBack)
  {
  }

  /** The patch asks for nothing the file does not already say. */
  predicate ChangesNothing(saved: map<string, Json>, patch: Json) {
    patch.Obj? && forall k :: k in patch.fields ==> Stored(patch.fields[k]) == Lookup(saved, k)
  }

  /** The entries of a file that parses, after any call and whatever the environment does:
      the file still parses, and its entries are the old ones exactly when the call does
      not replace it, rolls it back, or carries a patch that changes nothing. */
  lemma EntriesSurvive(before: Option<string>, patch: Json, world: World)
    requires Parse(Backup(before)).Ok?
    ensures Parse(Backup(Outcome(before, patch, world).1)).Ok?
    ensures Parse(Backup(Outcome(before, patch, world).1)).value == Parse(Backup(before)).value <==>
            || !Replaces(before, patch, world)
            || (!world.commandPasses && world.rolledBack)
            || ChangesNothing(Parse(Backup(before)).value, patch)
  {
    if Replaces(before, patch, world) && (world.commandPasses || !world.rolledBack) {
      var saved := Parse(Backup(before)).value;
      PrintedLookups(Backup(before), patch);
      var now := Parse(Backup(Outcome(before, patch, world).1)).value;
      if ChangesNothing(saved, patch) {
        SameLookups(now, saved);
      }
    }
  }

  /** One call of a run. */
  datatype Call = Call(patch: Json, world: World)

  ghost function AfterRun(before: Option<string>, calls: seq<Call>): Option<string>
    decreases |calls|
  {
    if calls == [] then before
    else AfterRun(Outcome(before, calls[0].patch, calls[0].world).1, calls[1..])
  }

  /** However the environment behaves, a file that parses keeps parsing over every
      run of writes, failed rollbacks included. */
  lemma {:induction false} FileKeepsParsing(before: Option<string>, calls: seq<Call>)
    requires Parse(Backup(before)).Ok?
    ensures Parse(Backup(AfterRun(before, calls))).Ok?
    decreases |calls|
  {
    if calls != [] {
      EntriesSurvive(before, calls[0].patch, calls[0].world);
      FileKeepsParsing(Outcome(before, calls[0].patch, calls[0].world).1, calls[1..]);
    }
  }
}
