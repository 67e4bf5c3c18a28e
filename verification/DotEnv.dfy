/** The dotenv format of mac-mgmt-agent/src/validator.rs: `parse_env`,
    `serialize_env` and `validate_env_object`. */
module DotEnv {
  import opened Prelude
  import opened Text
  import opened Documents

  datatype EnvError =
    | NoEquals(lineNumber: nat)
    | BadKeyOnLine(key: string, lineNumber: nat)
    | NotAnObject
    | NotAScalar(key: string)
    | BadKey(key: string)
    | HasNewline(key: string)

  predicate IsKeyStart(c: char) {
    'a' <= c <= 'z' || 'A' <= c <= 'Z' || c == '_'
  }

  predicate IsKeyChar(c: char) {
    IsKeyStart(c) || IsDigit(c)
  }

  /** `[A-Za-z_][A-Za-z0-9_]*` */
  predicate IsValidKey(key: string) {
    key != [] && IsKeyStart(key[0]) && forall c :: c in key ==> IsKeyChar(c)
  }

  function Lookup(fields: map<string, Json>, key: string): Option<Json> {
    if key in fields then Some(fields[key]) else None
  }

  // ---- parsing ---------------------------------------------------------------

  datatype EnvLine = Skip | Entry(key: string, text: string) | MissingEquals | InvalidKey(key: string)

  const EXPORT: string := "export "

  function StripExport(line: string): string {
    if EXPORT <= line then line[|EXPORT|..] else line
  }

  function ParseLine(raw: string): EnvLine {
    var line := Trim(raw);
    if line == [] || line[0] == '#' then
      Skip
    else
      var body := StripExport(line);
      var eq := IndexOf(body, '=');
      if eq.None? then
        MissingEquals
      else
        var key := Trim(body[..eq.value]);
        if IsValidKey(key) then Entry(key, body[eq.value + 1..]) else InvalidKey(key)
  }

  /** The loop over the lines, from line number `n` on. */
  function ParseLines(lines: seq<string>, n: nat, fields: map<string, Json>): Result<map<string, Json>, EnvError>
    decreases |lines|
  {
    if lines == [] then
      Ok(fields)
    else
      match ParseLine(lines[0])
      case Skip => ParseLines(lines[1..], n + 1, fields)
      case MissingEquals => Err(NoEquals(n + 1))
      case InvalidKey(key) => Err(BadKeyOnLine(key, n + 1))
      case Entry(key, text) => ParseLines(lines[1..], n + 1, fields[key := Str(text)])
  }

  function Parse(content: string): Result<map<string, Json>, EnvError> {
    ParseLines(Lines(content), 0, map[])
  }

  method ParseEnv(content: string) returns (parsed: Result<Json, EnvError>)
    ensures parsed == match Parse(content) case Ok(fields) => Ok(Obj(fields)) case Err(e) => Err(e)
  {
    var lines, fields := Lines(content), map[];
    var i := 0;
    while i < |lines|
      invariant 0 <= i <= |lines|
      invariant Parse(content) == ParseLines(lines[i..], i, fields)
    {
      assert lines[i..][1..] == lines[i + 1..];
      match ParseLine(lines[i]) {
        case Skip =>
        case MissingEquals => return Err(NoEquals(i + 1));
        case InvalidKey(key) => return Err(BadKeyOnLine(key, i + 1));
        case Entry(key, text) => fields := fields[key := Str(text)];
      }
      i := i + 1;
    }
    return Ok(Obj(fields));
  }

  // ---- printing --------------------------------------------------------------

  /** How a value is written after the '='; None for null and containers. */
  function Rendered(value: Json): Option<string> {
    match value
    case Str(text) => Some(text)
    case Bool(b) => Some(if b then "true" else "false")
    case Num(literal) => Some(literal)
    case _ => None
  }

  function PrintLine(key: string, text: string): string {
    key + "=" + text + "\n"
  }

  /** What `serialize_env` finds wrong with one entry; null entries are skipped unseen. */
  function EntryError(key: string, value: Json): Option<EnvError> {
    if value.Null? then None
    else if Rendered(value).None? then Some(NotAScalar(key))
    else if !IsValidKey(key) then Some(BadKey(key))
    else if '\n' in Rendered(value).value then Some(HasNewline(key))
    else None
  }

  function PrintEntries(fields: map<string, Json>, keys: seq<string>): Result<string, EnvError>
    requires forall k :: k in keys ==> k in fields
  {
    if keys == [] then
      Ok("")
    else
      var value := fields[keys[0]];
      var rest := PrintEntries(fields, keys[1..]);
      if EntryError(keys[0], value).Some? then Err(EntryError(keys[0], value).value)
      else if rest.Err? then rest
      else if value.Null? then rest
      else Ok(PrintLine(keys[0], Rendered(value).value) + rest.value)
  }

  ghost function Print(fields: map<string, Json>): Result<string, EnvError> {
    PrintEntries(fields, SortedKeys(fields.Keys))
  }

  /** The outcome of the whole loop, given what is already written. */
  function After(out: string, rest: Result<string, EnvError>): (whole: Result<string, EnvError>)
    ensures out == "" ==> whole == rest
    ensures rest == Ok("") ==> whole == Ok(out)
  {
    match rest
    case Ok(more) =>
      assert "" + more == more && out + "" == out;
      Ok(out + more)
    case Err(_) => rest
  }

  lemma AfterLine(out: string, line: string, rest: string)
    ensures After(out, Ok(line + rest)) == After(out + line, Ok(rest))
  {
    assert out + (line + rest) == (out + line) + rest;
  }

  method SerializeEnv(value: Json) returns (printed: Result<string, EnvError>)
    ensures printed == if value.Obj? then Print(value.fields) else Err(NotAnObject)
  {
    if !value.Obj? {
      return Err(NotAnObject);
    }
    var fields, out := value.fields, "";
    var todo := fields.Keys;
    while todo != {}
      invariant todo <= fields.Keys
      invariant Print(fields) == After(out, PrintEntries(fields, SortedKeys(todo)))
      decreases |todo|
    {
      ghost var least := LeastExists(todo);
      var key :| key in todo && forall other :: other in todo && other != key ==> Less(key, other);
      SortedKeysFrom(todo, key);
      assert SortedKeys(todo)[1..] == SortedKeys(todo - {key});
      var val := fields[key];
      todo := todo - {key};
      if val.Null? {
        continue;
      }
      if Rendered(val).None? {
        return Err(NotAScalar(key));
      }
      if !IsValidKey(key) {
        return Err(BadKey(key));
      }
      var rendered := Rendered(val).value;
      if '\n' in rendered {
        return Err(HasNewline(key));
      }
      ghost var rest := PrintEntries(fields, SortedKeys(todo));
      if rest.Ok? {
        AfterLine(out, PrintLine(key, rendered), rest.value);
      }
      out := out + PrintLine(key, rendered);
    }
    assert PrintEntries(fields, SortedKeys(todo)) == Ok("");
    return Ok(out);
  }

  // ---- the validator ---------------------------------------------------------

  predicate IsValidEntry(key: string, value: Json) {
    && IsValidKey(key)
    && match value
       case Null => true
       case Bool(_) => true
       case Num(_) => true
       case Str(text) => '\n' !in text
       case _ => false
  }

  predicate ValidateEnv(value: Json) {
    value.Obj? && forall k :: k in value.fields ==> IsValidEntry(k, value.fields[k])
  }

  // ---- round trips -----------------------------------------------------------

  /** What a printed file reads back as: nulls gone, every value a string without
      trailing blanks. */
  function ReadBack(fields: map<string, Json>, keys: seq<string>, start: map<string, Json>): map<string, Json>
    requires forall k :: k in keys ==> k in fields
  {
    if keys == [] then
      start
    else
      var text := Rendered(fields[keys[0]]);
      ReadBack(fields, keys[1..], if text.None? then start else start[keys[0] := Str(TrimEnd(text.value))])
  }

  lemma ValidKeyFacts(key: string)
    requires IsValidKey(key)
    ensures forall c :: c in key ==> !IsWhitespace(c) && c != '=' && c != '\n' && c != '#'
    ensures Trim(key) == key
  {
    assert key[0] in key && key[|key| - 1] in key;
  }

  lemma NotAnExport(key: string, text: string)
    requires IsValidKey(key)
    ensures !(EXPORT <= key + "=" + text)
  {
    var line := key + "=" + text;
    if |key| <= 6 {
      assert line[|key|] == '=';
      assert forall i :: 0 <= i < |EXPORT| ==> EXPORT[i] != '=';
      assert EXPORT[|key|] != line[|key|];
    } else {
      assert line[6] == key[6] && key[6] in key;
      ValidKeyFacts(key);
    }
  }

  /** A printed line reads back as its key and its text without trailing blanks. */
  lemma PrintedLineParses(key: string, text: string)
    requires IsValidKey(key)
    ensures ParseLine(DropCr(key + "=" + text)) == Entry(key, TrimEnd(text))
  {
    ValidKeyFacts(key);
    var head := key + "=";
    var line := key + "=" + text;
    assert line == head + text;
    TrimDropCr(line);
    assert line[0] == key[0] && key[0] in key;
    TrimEndAppend(head, text);
    var kept := TrimEnd(text);
    var body := head + kept;
    assert Trim(line) == body;
    assert body == key + "=" + kept;
    NotAnExport(key, kept);
    assert body[..|key|] == key && body[|key|] == '=' && body[|key| + 1..] == kept;
    IndexOfFirst(body, '=', |key|);
  }

  lemma {:induction false} PrintedEntriesParse(fields: map<string, Json>, keys: seq<string>, n: nat, start: map<string, Json>)
    requires forall k :: k in keys ==> k in fields
    requires PrintEntries(fields, keys).Ok?
    ensures ParseLines(Lines(PrintEntries(fields, keys).value), n, start) == Ok(ReadBack(fields, keys, start))
    decreases |keys|
  {
    if keys != [] {
      var key, value := keys[0], fields[keys[0]];
      if value.Null? {
        PrintedEntriesParse(fields, keys[1..], n, start);
      } else {
        var text := Rendered(value).value;
        var rest := PrintEntries(fields, keys[1..]).value;
        PrintedEntriesParse(fields, keys[1..], n + 1, start[key := Str(TrimEnd(text))]);
        assert PrintEntries(fields, keys).value == (key + "=" + text) + "\n" + rest;
        ValidKeyFacts(key);
        LinesCons(key + "=" + text, rest);
        PrintedLineParses(key, text);
        assert ([DropCr(key + "=" + text)] + Lines(rest))[1..] == Lines(rest);
      }
    }
  }

  /** The same result without reference to key order. */
  function Stored(value: Json): Option<Json> {
    var text := Rendered(value);
    if text.None? then None else Some(Str(TrimEnd(text.value)))
  }

  lemma {:induction false} ReadBackAt(fields: map<string, Json>, keys: seq<string>, start: map<string, Json>, k: string)
    requires forall key :: key in keys ==> key in fields
    ensures var r := ReadBack(fields, keys, start);
            Lookup(r, k) ==
            if k in keys && Stored(fields[k]).Some? then Stored(fields[k])
            else Lookup(start, k)
    decreases |keys|
  {
    if keys != [] {
      var text := Rendered(fields[keys[0]]);
      ReadBackAt(fields, keys[1..],
                 if text.None? then start else start[keys[0] := Str(TrimEnd(text.value))], k);
      assert k in keys <==> k == keys[0] || k in keys[1..];
    }
  }

  /** Whatever prints, reads back key by key as what was stored: nulls are gone and
      trailing blanks are lost, nothing else changes. */
  lemma PrintThenParse(fields: map<string, Json>)
    requires Print(fields).Ok?
    ensures Parse(Print(fields).value).Ok?
    ensures forall k :: Lookup(Parse(Print(fields).value).value, k) ==
                        if k in fields then Stored(fields[k]) else None
  {
    var keys := SortedKeys(fields.Keys);
    PrintedEntriesParse(fields, keys, 0, map[]);
    forall k ensures Lookup(ReadBack(fields, keys, map[]), k) ==
                     if k in fields then Stored(fields[k]) else None
    {
      ReadBackAt(fields, keys, map[], k);
    }
  }

  /** Every parsed value is a string that a reparse would not touch. */
  predicate IsParsedEntry(key: string, value: Json) {
    IsValidEntry(key, value) && value.Str? && !EndsBlank(value.text)
  }

  lemma SuffixFacts(s: string, n: nat)
    requires n <= |s|
    ensures forall c :: c in s[n..] ==> c in s
    ensures !EndsBlank(s) ==> !EndsBlank(s[n..])
  {
    if n < |s| {
      assert s[n..][|s[n..]| - 1] == s[|s| - 1];
    }
  }

  lemma ParsedLineIsClean(raw: string)
    requires '\n' !in raw
    ensures ParseLine(raw).Entry? ==> IsParsedEntry(ParseLine(raw).key, Str(ParseLine(raw).text))
  {
    if ParseLine(raw).Entry? {
      TrimFacts(raw);
      var line := Trim(raw);
      var body := StripExport(line);
      var text := ParseLine(raw).text;
      assert '\n' !in body && !EndsBlank(body) by {
        SuffixFacts(line, |line| - |body|);
      }
      assert '\n' !in text && !EndsBlank(text) by {
        SuffixFacts(body, |body| - |text|);
      }
    }
  }

  lemma {:induction false} ParsedEntriesAreClean(lines: seq<string>, n: nat, start: map<string, Json>)
    requires forall line :: line in lines ==> '\n' !in line
    requires forall k :: k in start ==> IsParsedEntry(k, start[k])
    ensures var r := ParseLines(lines, n, start);
            r.Ok? ==> forall k :: k in r.value ==> IsParsedEntry(k, r.value[k])
    decreases |lines|
  {
    if lines != [] {
      ParsedLineIsClean(lines[0]);
      match ParseLine(lines[0])
      case Skip => ParsedEntriesAreClean(lines[1..], n + 1, start);
      case Entry(key, text) => ParsedEntriesAreClean(lines[1..], n + 1, start[key := Str(text)]);
      case _ =>
    }
  }

  lemma ParseIsClean(content: string)
    requires Parse(content).Ok?
    ensures forall k :: k in Parse(content).value ==> IsParsedEntry(k, Parse(content).value[k])
  {
    LinesHaveNoNewline(content);
    ParsedEntriesAreClean(Lines(content), 0, map[]);
  }

  lemma {:induction false} CleanEntriesPrint(fields: map<string, Json>, keys: seq<string>)
    requires forall k :: k in keys ==> k in fields && EntryError(k, fields[k]).None?
    ensures PrintEntries(fields, keys).Ok?
    decreases |keys|
  {
    if keys != [] {
      CleanEntriesPrint(fields, keys[1..]);
    }
  }

  /** Whatever passes the validator can be printed. */
  lemma ValidPrints(value: Json)
    requires ValidateEnv(value)
    ensures Print(value.fields).Ok?
  {
    assert forall lit: NumberLiteral :: '\n' !in lit;
    CleanEntriesPrint(value.fields, SortedKeys(value.fields.Keys));
  }

  /** For every text that parses, printing the result and parsing again gives it back. */
  lemma ParsePrintParse(content: string)
    requires Parse(content).Ok?
    ensures Print(Parse(content).value).Ok?
    ensures Parse(Print(Parse(content).value).value) == Parse(content)
  {
    var fields := Parse(content).value;
    ParseIsClean(content);
    ValidPrints(Obj(fields));
    PrintThenParse(fields);
    var again := Parse(Print(fields).value).value;
    forall k ensures Lookup(again, k) == Lookup(fields, k) {
      if k in fields {
        ParsedIsStored(k, fields[k]);
      }
    }
    SameLookups(again, fields);
  }

  lemma ParsedIsStored(key: string, value: Json)
    requires IsParsedEntry(key, value)
    ensures Stored(value) == Some(value)
  {
    TrimEndFacts(value.text);
  }

  lemma SameLookups(a: map<string, Json>, b: map<string, Json>)
    requires forall k :: Lookup(a, k) == Lookup(b, k)
    ensures a == b
  {
    forall k ensures k in a <==> k in b {
      assert Lookup(a, k) == Lookup(b, k);
    }
    forall k | k in a ensures a[k] == b[k] {
      assert Lookup(a, k) == Lookup(b, k);
    }
  }

  /** The value as the file is meant to hold it. */
  function Literal(value: Json): Option<Json> {
    var text := Rendered(value);
    if text.None? then None else Some(Str(text.value))
  }

  lemma StoredLiterally(value: Json)
    ensures Stored(value) == Literal(value) <==> !(value.Str? && EndsBlank(value.text))
  {
    if Rendered(value).Some? {
      TrimEndFacts(Rendered(value).value);
      if value.Num? {
        assert value.literal[|value.literal| - 1] in value.literal;
      }
    }
  }

  /** A printable document reads back unchanged (numbers and booleans as their text,
      nulls dropped) exactly when no string value ends in a blank. */
  lemma ReadsBackExactly(fields: map<string, Json>)
    requires Print(fields).Ok?
    ensures Parse(Print(fields).value).Ok?
    ensures (forall k :: Lookup(Parse(Print(fields).value).value, k) == if k in fields then Literal(fields[k]) else None)
       <==> (forall k :: k in fields ==> !(fields[k].Str? && EndsBlank(fields[k].text)))
  {
    PrintThenParse(fields);
    var again := Parse(Print(fields).value).value;
    forall k | k in fields
      ensures Lookup(again, k) == Literal(fields[k]) <==> !(fields[k].Str? && EndsBlank(fields[k].text))
    {
      StoredLiterally(fields[k]);
    }
  }
}
