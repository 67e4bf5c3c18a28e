/** The dotenv language (mac-mgmt-agent/src/validator.rs `parse_env`, `serialize_env`),
    described by its texts: which lines are entries, comments or errors, what a whole text
    means, and what a printed file looks like. */
module EnvSyntax {
  import opened Prelude
  import opened Text
  import opened Documents
  import opened DotEnv

  // ---- names and blanks ----------------------------------------------------------

  /** `[A-Za-z_][A-Za-z0-9_]*` */
  predicate IsName(key: string) {
    && |key| > 0
    && forall i :: 0 <= i < |key| ==>
         || 'A' <= key[i] <= 'Z' || 'a' <= key[i] <= 'z' || key[i] == '_'
         || (i > 0 && '0' <= key[i] <= '9')
  }

  lemma ValidKeysAreNames(key: string)
    ensures IsValidKey(key) <==> IsName(key)
  {
    if IsValidKey(key) {
      assert forall i :: 0 <= i < |key| ==> key[i] in key;
    }
  }

  predicate AllBlank(s: string) {
    forall i :: 0 <= i < |s| ==> IsWhitespace(s[i])
  }

  /** `core` is the part of `s` between its outer blanks. */
  ghost predicate IsCore(s: string, core: string) {
    && (exists front, back :: s == front + core + back && AllBlank(front) && AllBlank(back))
    && (core != [] ==> !IsWhitespace(core[0]) && !IsWhitespace(core[|core| - 1]))
  }

  lemma {:induction false} TrimStartBlanks(front: string, rest: string)
    requires AllBlank(front) && (rest == [] || !IsWhitespace(rest[0]))
    ensures TrimStart(front + rest) == rest
    decreases |front|
  {
    if front == [] {
      assert front + rest == rest;
    } else {
      assert (front + rest)[1..] == front[1..] + rest;
      TrimStartBlanks(front[1..], rest);
    }
  }

  lemma {:induction false} TrimEndBlanks(front: string, back: string)
    requires AllBlank(back) && (front == [] || !IsWhitespace(front[|front| - 1]))
    ensures TrimEnd(front + back) == front
    decreases |back|
  {
    if back == [] {
      assert front + back == front;
    } else {
      assert (front + back)[..|front + back| - 1] == front + back[..|back| - 1];
      TrimEndBlanks(front, back[..|back| - 1]);
    }
  }

  lemma {:induction false} TrimStartLeaves(s: string) returns (front: string)
    ensures s == front + TrimStart(s) && AllBlank(front)
    ensures TrimStart(s) != [] ==> !IsWhitespace(TrimStart(s)[0])
    decreases |s|
  {
    if s != [] && IsWhitespace(s[0]) {
      var rest := TrimStartLeaves(s[1..]);
      front := [s[0]] + rest;
    } else {
      front := [];
    }
  }

  lemma {:induction false} TrimEndLeaves(s: string) returns (back: string)
    ensures s == TrimEnd(s) + back && AllBlank(back)
    decreases |s|
  {
    if EndsBlank(s) {
      var rest := TrimEndLeaves(s[..|s| - 1]);
      back := rest + [s[|s| - 1]];
    } else {
      back := [];
    }
  }

  /** Trimming finds the part between the outer blanks, and there is only one. */
  lemma TrimIsCore(s: string, core: string)
    ensures Trim(s) == core <==> IsCore(s, core)
  {
    if Trim(s) == core {
      var front := TrimStartLeaves(s);
      var back := TrimEndLeaves(TrimStart(s));
      TrimEndFacts(TrimStart(s));
      assert s == front + core + back;
    }
    if IsCore(s, core) {
      var front, back :| s == front + core + back && AllBlank(front) && AllBlank(back);
      CoreIsTrim(front, core, back);
    }
  }

  lemma CoreIsTrim(front: string, core: string, back: string)
    requires AllBlank(front) && AllBlank(back)
    requires core != [] ==> !IsWhitespace(core[0]) && !IsWhitespace(core[|core| - 1])
    ensures Trim(front + core + back) == core
  {
    if core == [] {
      assert front + core + back == (front + back) + [];
      TrimStartBlanks(front + back, []);
    } else {
      assert front + core + back == front + (core + back);
      TrimStartBlanks(front, core + back);
      TrimEndBlanks(core, back);
    }
  }

  // ---- one line --------------------------------------------------------------------

  /** Blank, or a comment. */
  predicate IsIgnored(raw: string) {
    var line := Trim(raw);
    |line| == 0 || line[0] == '#'
  }

  /** What a line assigns, with at most one leading "export " taken off. */
  predicate IsBody(raw: string, body: string) {
    var line := Trim(raw);
    line == "export " + body || (line == body && !("export " <= line))
  }

  /** The line, which is not ignored, reads `k=text` with nothing equal-like in `k`. */
  predicate IsAssignment(raw: string, body: string, k: string, text: string) {
    !IsIgnored(raw) && IsBody(raw, body) && body == k + "=" + text && '=' !in k
  }

  ghost predicate Assigns(raw: string, key: string, text: string) {
    exists body, k :: IsAssignment(raw, body, k, text) && Trim(k) == key && IsName(key)
  }

  ghost predicate HasBadName(raw: string, key: string) {
    exists body, k, text :: IsAssignment(raw, body, k, text) && Trim(k) == key && !IsName(key)
  }

  ghost predicate LacksEquals(raw: string) {
    !IsIgnored(raw) && exists body :: IsBody(raw, body) && '=' !in body
  }

  lemma BodyIsUnique(raw: string, body: string)
    ensures IsBody(raw, body) <==> body == StripExport(Trim(raw))
  {
    var line := Trim(raw);
    if "export " <= line {
      assert line == "export " + line[|EXPORT|..];
    }
  }

  lemma SplitAtEquals(body: string, k: string, text: string)
    ensures body == k + "=" + text && '=' !in k <==>
            IndexOf(body, '=') == Some(|k|) && body[..|k|] == k && body[|k| + 1..] == text
  {
    if body == k + "=" + text && '=' !in k {
      assert body[..|k|] == k && body[|k|] == '=' && body[|k| + 1..] == text;
      IndexOfFirst(body, '=', |k|);
    } else {
      NotBeforeIndex(body, '=');
    }
  }

  /** A line has at most one reading as an assignment. */
  lemma AssignmentForm(raw: string, body: string, k: string, text: string)
    ensures IsAssignment(raw, body, k, text) <==>
            && !IsIgnored(raw) && body == StripExport(Trim(raw))
            && IndexOf(body, '=') == Some(|k|) && body[..|k|] == k && body[|k| + 1..] == text
  {
    BodyIsUnique(raw, body);
    SplitAtEquals(body, k, text);
  }

  lemma EntryLine(raw: string, key: string, text: string)
    ensures ParseLine(raw) == Entry(key, text) <==> Assigns(raw, key, text)
  {
    var body := StripExport(Trim(raw));
    ValidKeysAreNames(key);
    if ParseLine(raw) == Entry(key, text) {
      var k := body[..IndexOf(body, '=').value];
      AssignmentForm(raw, body, k, text);
    }
    if Assigns(raw, key, text) {
      var b, k :| IsAssignment(raw, b, k, text) && Trim(k) == key && IsName(key);
      AssignmentForm(raw, b, k, text);
    }
  }

  lemma BadNameLine(raw: string, key: string)
    ensures ParseLine(raw) == InvalidKey(key) <==> HasBadName(raw, key)
  {
    var body := StripExport(Trim(raw));
    ValidKeysAreNames(key);
    if ParseLine(raw) == InvalidKey(key) {
      var i := IndexOf(body, '=').value;
      AssignmentForm(raw, body, body[..i], body[i + 1..]);
    }
    if HasBadName(raw, key) {
      var b, k, text :| IsAssignment(raw, b, k, text) && Trim(k) == key && !IsName(key);
      AssignmentForm(raw, b, k, text);
    }
  }

  lemma LineWithoutEquals(raw: string)
    ensures ParseLine(raw).MissingEquals? <==> LacksEquals(raw)
  {
    var body := StripExport(Trim(raw));
    BodyIsUnique(raw, body);
    NotBeforeIndex(body, '=');
    if LacksEquals(raw) {
      var b :| IsBody(raw, b) && '=' !in b;
      BodyIsUnique(raw, b);
    }
  }

  /** What every line means, exactly: ignored, an entry, a line without '=' or a line whose
      name is no environment variable name. */
  lemma LineMeaning(raw: string)
    ensures ParseLine(raw).Skip? <==> IsIgnored(raw)
    ensures ParseLine(raw).MissingEquals? <==> LacksEquals(raw)
    ensures forall key, text :: ParseLine(raw) == Entry(key, text) <==> Assigns(raw, key, text)
    ensures forall key :: ParseLine(raw) == InvalidKey(key) <==> HasBadName(raw, key)
  {
    LineWithoutEquals(raw);
    forall key, text ensures ParseLine(raw) == Entry(key, text) <==> Assigns(raw, key, text) {
      EntryLine(raw, key, text);
    }
    forall key ensures ParseLine(raw) == InvalidKey(key) <==> HasBadName(raw, key) {
      BadNameLine(raw, key);
    }
  }

  // ---- a whole text -------------------------------------------------------------------

  ghost predicate IsFaulty(raw: string) {
    LacksEquals(raw) || exists key :: HasBadName(raw, key)
  }

  /** Line `i` is the last one that assigns `key`, and gives it `text`. */
  ghost predicate IsLastAssignment(lines: seq<string>, key: string, text: string, i: nat) {
    && i < |lines| && Assigns(lines[i], key, text)
    && forall j, other :: i < j < |lines| ==> !Assigns(lines[j], key, other)
  }

  ghost predicate IsFirstFault(lines: seq<string>, i: nat) {
    i < |lines| && IsFaulty(lines[i]) && forall j :: 0 <= j < i ==> !IsFaulty(lines[j])
  }

  lemma FaultsAreErrors(raw: string)
    ensures IsFaulty(raw) <==> ParseLine(raw).MissingEquals? || ParseLine(raw).InvalidKey?
  {
    LineMeaning(raw);
  }

  predicate IsError(line: EnvLine) {
    line.MissingEquals? || line.InvalidKey?
  }

  /** The fields after one line that is no error. */
  function AfterLineOf(line: EnvLine, fields: map<string, Json>): map<string, Json> {
    if line.Entry? then fields[line.key := Str(line.text)] else fields
  }

  /** The loop over lines that have been read already. */
  function Collect(lines: seq<EnvLine>, n: nat, fields: map<string, Json>): Result<map<string, Json>, EnvError> {
    if lines == [] then Ok(fields)
    else if lines[0].MissingEquals? then Err(NoEquals(n + 1))
    else if lines[0].InvalidKey? then Err(BadKeyOnLine(lines[0].key, n + 1))
    else Collect(lines[1..], n + 1, AfterLineOf(lines[0], fields))
  }

  function Read(lines: seq<string>): (read: seq<EnvLine>)
    ensures |read| == |lines| && forall i :: 0 <= i < |lines| ==> read[i] == ParseLine(lines[i])
  {
    seq(|lines|, i requires 0 <= i < |lines| => ParseLine(lines[i]))
  }

  lemma {:induction false} ParseCollects(lines: seq<string>, n: nat, fields: map<string, Json>)
    ensures ParseLines(lines, n, fields) == Collect(Read(lines), n, fields)
    decreases |lines|
  {
    if lines != [] {
      assert Read(lines)[1..] == Read(lines[1..]);
      ParseCollects(lines[1..], n + 1, AfterLineOf(ParseLine(lines[0]), fields));
    }
  }

  lemma {:induction false} CollectOk(lines: seq<EnvLine>, n: nat, start: map<string, Json>)
    ensures Collect(lines, n, start).Ok? <==> forall i :: 0 <= i < |lines| ==> !IsError(lines[i])
    decreases |lines|
  {
    if lines != [] && !IsError(lines[0]) {
      CollectOk(lines[1..], n + 1, AfterLineOf(lines[0], start));
      assert lines == [lines[0]] + lines[1..];
    }
  }

  lemma {:induction false} CollectFails(lines: seq<EnvLine>, n: nat, start: map<string, Json>, i: nat)
    requires i < |lines| && IsError(lines[i]) && forall j :: 0 <= j < i ==> !IsError(lines[j])
    ensures Collect(lines, n, start) ==
            Err(if lines[i].InvalidKey? then BadKeyOnLine(lines[i].key, n + i + 1) else NoEquals(n + i + 1))
    decreases |lines|
  {
    if i > 0 {
      assert !IsError(lines[0]);
      CollectFails(lines[1..], n + 1, AfterLineOf(lines[0], start), i - 1);
    }
  }

  predicate Sets(line: EnvLine, key: string) {
    line.Entry? && line.key == key
  }

  lemma {:induction false} CollectKeeps(lines: seq<EnvLine>, n: nat, start: map<string, Json>, key: string)
    requires Collect(lines, n, start).Ok? && forall i :: 0 <= i < |lines| ==> !Sets(lines[i], key)
    ensures Lookup(Collect(lines, n, start).value, key) == Lookup(start, key)
    decreases |lines|
  {
    if lines != [] {
      assert !Sets(lines[0], key);
      CollectKeeps(lines[1..], n + 1, AfterLineOf(lines[0], start), key);
    }
  }

  lemma {:induction false} CollectSets(lines: seq<EnvLine>, n: nat, start: map<string, Json>, key: string, i: nat)
    requires Collect(lines, n, start).Ok? && i < |lines| && Sets(lines[i], key)
    requires forall j :: i < j < |lines| ==> !Sets(lines[j], key)
    ensures Lookup(Collect(lines, n, start).value, key) == Some(Str(lines[i].text))
    decreases |lines|
  {
    var next := AfterLineOf(lines[0], start);
    if i > 0 {
      CollectSets(lines[1..], n + 1, next, key, i - 1);
    } else {
      CollectKeeps(lines[1..], n + 1, next, key);
    }
  }

  lemma ReadFaults(lines: seq<string>, i: nat)
    requires i < |lines|
    ensures IsFaulty(lines[i]) <==> IsError(Read(lines)[i])
  {
    FaultsAreErrors(lines[i]);
  }

  ghost predicate IsFaultless(lines: seq<string>) {
    forall i :: 0 <= i < |lines| ==> !IsFaulty(lines[i])
  }

  lemma NoFaultsIn(lines: seq<string>)
    ensures ParseLines(lines, 0, map[]).Ok? <==> IsFaultless(lines)
  {
    ParseCollects(lines, 0, map[]);
    var read := Read(lines);
    CollectOk(read, 0, map[]);
    forall i | 0 <= i < |lines| ensures IsFaulty(lines[i]) <==> IsError(read[i]) {
      ReadFaults(lines, i);
    }
    if forall i :: 0 <= i < |lines| ==> !IsFaulty(lines[i]) {
      assert forall i :: 0 <= i < |read| ==> !IsError(read[i]);
    }
    if forall i :: 0 <= i < |read| ==> !IsError(read[i]) {
      assert forall i :: 0 <= i < |lines| ==> !IsFaulty(lines[i]);
    }
  }

  /** A text parses exactly when none of its lines is faulty. */
  lemma ParsesIffNoFault(content: string)
    ensures Parse(content).Ok? <==> IsFaultless(Lines(content))
  {
    NoFaultsIn(Lines(content));
  }

  /** Otherwise its first faulty line is reported, by its number counted from 1. */
  lemma FirstFaultIsReported(content: string, i: nat)
    requires IsFirstFault(Lines(content), i)
    ensures LacksEquals(Lines(content)[i]) ==> Parse(content) == Err(NoEquals(i + 1))
    ensures forall key :: HasBadName(Lines(content)[i], key) ==> Parse(content) == Err(BadKeyOnLine(key, i + 1))
  {
    FirstFaultOf(Lines(content), i);
    FaultKind(Lines(content)[i]);
  }

  lemma FaultKind(raw: string)
    ensures LacksEquals(raw) ==> ParseLine(raw) == MissingEquals
    ensures forall key :: HasBadName(raw, key) ==> ParseLine(raw) == InvalidKey(key)
  {
    LineMeaning(raw);
  }

  lemma ErrorsUpTo(lines: seq<string>, i: nat)
    requires IsFirstFault(lines, i)
    ensures IsError(Read(lines)[i]) && forall j :: 0 <= j < i ==> !IsError(Read(lines)[j])
  {
    ReadFaults(lines, i);
    forall j | 0 <= j < i ensures !IsError(Read(lines)[j]) {
      ReadFaults(lines, j);
    }
  }

  lemma FirstFaultOf(lines: seq<string>, i: nat)
    requires IsFirstFault(lines, i)
    ensures var line := Read(lines)[i];
            && IsError(line)
            && ParseLines(lines, 0, map[]) == Err(if line.InvalidKey? then BadKeyOnLine(line.key, i + 1) else NoEquals(i + 1))
  {
    ErrorsUpTo(lines, i);
    ParseCollects(lines, 0, map[]);
    CollectFails(Read(lines), 0, map[], i);
  }

  /** A text that parses gives a key the value of the last line that assigns it. */
  lemma LastAssignmentWins(content: string, key: string, text: string, i: nat)
    requires Parse(content).Ok? && IsLastAssignment(Lines(content), key, text, i)
    ensures Lookup(Parse(content).value, key) == Some(Str(text))
  {
    var lines := Lines(content);
    ParseCollects(lines, 0, map[]);
    LineMeaning(lines[i]);
    assert ParseLine(lines[i]) == Entry(key, text);
    NotSetLater(lines, key, i + 1);
    CollectSets(Read(lines), 0, map[], key, i);
  }

  /** And no value if no line assigns it. */
  lemma UnassignedIsAbsent(content: string, key: string)
    requires Parse(content).Ok?
    requires forall i, text :: 0 <= i < |Lines(content)| ==> !Assigns(Lines(content)[i], key, text)
    ensures Lookup(Parse(content).value, key) == None
  {
    var lines := Lines(content);
    ParseCollects(lines, 0, map[]);
    NotSetLater(lines, key, 0);
    CollectKeeps(Read(lines), 0, map[], key);
  }

  lemma NotSetLater(lines: seq<string>, key: string, from: nat)
    requires forall j, other :: from <= j < |lines| ==> !Assigns(lines[j], key, other)
    ensures forall j :: from <= j < |lines| ==> !Sets(Read(lines)[j], key)
  {
    forall j | from <= j < |lines| ensures !Sets(Read(lines)[j], key) {
      SetsMeansAssigns(lines[j], key);
    }
  }

  lemma SetsMeansAssigns(raw: string, key: string)
    ensures Sets(ParseLine(raw), key) ==> Assigns(raw, key, ParseLine(raw).text)
  {
    LineMeaning(raw);
  }

  // ---- lines of a text, and what is printed ----------------------------------------------

  /** The lines of a text, by its shape: a line ends at a newline, a carriage return before
      that newline belongs to the ending, and a last line needs no newline. */
  lemma LinesOfText(line: string, rest: string)
    requires '\n' !in line
    ensures Lines("") == []
    ensures line != "" ==> Lines(line) == [line]
    ensures line == "" || line[|line| - 1] != '\r' ==> Lines(line + "\n" + rest) == [line] + Lines(rest)
    ensures Lines(line + "\r" + "\n" + rest) == [line] + Lines(rest)
  {
    if line != "" {
      LastLine(line);
    }
    if line == "" || line[|line| - 1] != '\r' {
      LineWithNewline(line, rest);
    }
    LineWithReturn(line, rest);
  }

  lemma LastLine(line: string)
    requires '\n' !in line && line != ""
    ensures Lines(line) == [line]
  {
    NotBeforeIndex(line, '\n');
  }

  lemma LineWithNewline(line: string, rest: string)
    requires '\n' !in line && (line == "" || line[|line| - 1] != '\r')
    ensures Lines(line + "\n" + rest) == [line] + Lines(rest)
  {
    LinesCons(line, rest);
  }

  lemma LineWithReturn(line: string, rest: string)
    requires '\n' !in line
    ensures Lines(line + "\r" + "\n" + rest) == [line] + Lines(rest)
  {
    var ended := line + "\r";
    assert '\n' !in ended;
    LinesCons(ended, rest);
    assert ended[..|line|] == line;
    assert DropCr(ended) == line;
  }

  lemma {:induction false} SortedKeysAscend(keys: set<string>, i: nat, j: nat)
    requires i < j < |keys|
    ensures Less(SortedKeys(keys)[i], SortedKeys(keys)[j])
    decreases |keys|
  {
    var least := Least(keys);
    var rest := SortedKeys(keys - {least});
    assert SortedKeys(keys) == [least] + rest;
    if i > 0 {
      SortedKeysAscend(keys - {least}, i - 1, j - 1);
    } else {
      assert rest[j - 1] in rest;
    }
  }

  /** How a scalar is written. */
  predicate IsWritten(value: Json, text: string) {
    match value
    case Str(s) => text == s
    case Num(literal) => text == literal
    case Bool(true) => text == "true"
    case Bool(false) => text == "false"
    case _ => false
  }

  /** The printed text of some keys, one after the other: nothing for a null, one
      `key=text` line for a scalar. */
  ghost predicate IsPrinted(fields: map<string, Json>, keys: seq<string>, printed: string)
    requires forall k :: k in keys ==> k in fields
    decreases |keys|
  {
    if keys == [] then printed == ""
    else if fields[keys[0]].Null? then IsPrinted(fields, keys[1..], printed)
    else exists text, rest ::
      IsEntryLine(keys[0], fields[keys[0]], printed, text, rest) && IsPrinted(fields, keys[1..], rest)
  }

  /** The printed text starts with the line of one entry. */
  predicate IsEntryLine(key: string, value: Json, printed: string, text: string, rest: string) {
    && printed == key + "=" + text + "\n" + rest
    && IsName(key) && IsWritten(value, text) && '\n' !in text
  }

  lemma WrittenIsRendered(value: Json, text: string)
    ensures IsWritten(value, text) <==> Rendered(value) == Some(text)
  {
  }

  lemma {:induction false} PrintedKeys(fields: map<string, Json>, keys: seq<string>, printed: string)
    requires forall k :: k in keys ==> k in fields
    ensures PrintEntries(fields, keys) == Ok(printed) <==> IsPrinted(fields, keys, printed)
    decreases |keys|
  {
    if keys != [] {
      var key, value := keys[0], fields[keys[0]];
      if value.Null? {
        PrintedKeys(fields, keys[1..], printed);
      } else {
        ValidKeysAreNames(key);
        PrintedFirst(fields, keys, printed);
      }
    }
  }

  lemma {:induction false} PrintedFirst(fields: map<string, Json>, keys: seq<string>, printed: string)
    requires keys != [] && (forall k :: k in keys ==> k in fields) && !fields[keys[0]].Null?
    ensures PrintEntries(fields, keys) == Ok(printed) <==> IsPrinted(fields, keys, printed)
    decreases |keys|, 0
  {
    var key, value := keys[0], fields[keys[0]];
    ValidKeysAreNames(key);
    var rest := PrintEntries(fields, keys[1..]);
    if PrintEntries(fields, keys) == Ok(printed) {
      var text := Rendered(value).value;
      WrittenIsRendered(value, text);
      PrintedKeys(fields, keys[1..], rest.value);
      assert IsEntryLine(key, value, printed, text, rest.value);
    }
    if IsPrinted(fields, keys, printed) {
      var text, more :| IsEntryLine(key, value, printed, text, more) && IsPrinted(fields, keys[1..], more);
      WrittenIsRendered(value, text);
      PrintedKeys(fields, keys[1..], more);
    }
  }

  /** What a file is printed as, exactly: its non-null entries in ascending order of their
      keys, one `key=text` line each. */
  lemma PrintedForm(fields: map<string, Json>, keys: seq<string>, printed: string)
    requires (forall k :: k in keys <==> k in fields) && forall i, j :: 0 <= i < j < |keys| ==> Less(keys[i], keys[j])
    ensures Print(fields) == Ok(printed) <==> IsPrinted(fields, keys, printed)
  {
    SortedIsUnique(keys, fields.Keys);
    PrintedKeys(fields, keys, printed);
  }

  lemma {:induction false} SortedIsUnique(sorted: seq<string>, keys: set<string>)
    requires (forall k :: k in sorted <==> k in keys) && forall i, j :: 0 <= i < j < |sorted| ==> Less(sorted[i], sorted[j])
    ensures sorted == SortedKeys(keys)
    decreases |sorted|
  {
    if sorted == [] {
      assert keys == {};
    } else {
      var first, rest := sorted[0], sorted[1..];
      assert first in sorted && sorted == [first] + rest;
      forall other | other in keys && other != first ensures Less(first, other) {
        assert other in rest;
      }
      assert IsLeast(first, keys);
      SortedKeysFrom(keys, first);
      forall k ensures k in rest <==> k in keys - {first} {
        if k in rest {
          var j :| 0 <= j < |rest| && rest[j] == k;
          assert Less(sorted[0], sorted[j + 1]);
          LessIsTotal(first, k);
        }
      }
      SortedIsUnique(rest, keys - {first});
    }
  }

  /** What is wrong with an entry, in the order it is looked for. */
  function Fault(key: string, value: Json): Option<EnvError> {
    if value.Null? then None
    else if value.Arr? || value.Obj? then Some(NotAScalar(key))
    else if !IsName(key) then Some(BadKey(key))
    else if value.Str? && '\n' in value.text then Some(HasNewline(key))
    else None
  }

  lemma FaultIsError(key: string, value: Json)
    ensures EntryError(key, value) == Fault(key, value)
  {
    ValidKeysAreNames(key);
    if value.Num? {
      assert forall c :: c in value.literal ==> c != '\n';
    }
  }

  lemma {:induction false} FirstFaultStops(fields: map<string, Json>, keys: seq<string>, i: nat)
    requires (forall k :: k in keys ==> k in fields) && i < |keys| && Fault(keys[i], fields[keys[i]]).Some?
    requires forall j :: 0 <= j < i ==> Fault(keys[j], fields[keys[j]]).None?
    ensures PrintEntries(fields, keys) == Err(Fault(keys[i], fields[keys[i]]).value)
    decreases |keys|
  {
    FaultIsError(keys[0], fields[keys[0]]);
    if i > 0 {
      FirstFaultStops(fields, keys[1..], i - 1);
    }
  }

  lemma {:induction false} NoFaultPrints(fields: map<string, Json>, keys: seq<string>)
    requires forall k :: k in keys ==> k in fields && Fault(k, fields[k]).None?
    ensures PrintEntries(fields, keys).Ok?
    decreases |keys|
  {
    if keys != [] {
      FaultIsError(keys[0], fields[keys[0]]);
      NoFaultPrints(fields, keys[1..]);
    }
  }

  /** The first entry in key order with a fault is the one `serialize_env` reports. */
  lemma FirstBadEntryIsReported(fields: map<string, Json>, keys: seq<string>, i: nat)
    requires (forall k :: k in keys <==> k in fields) && forall i, j :: 0 <= i < j < |keys| ==> Less(keys[i], keys[j])
    requires i < |keys| && Fault(keys[i], fields[keys[i]]).Some?
    requires forall j :: 0 <= j < i ==> Fault(keys[j], fields[keys[j]]).None?
    ensures Print(fields) == Err(Fault(keys[i], fields[keys[i]]).value)
  {
    SortedIsUnique(keys, fields.Keys);
    FirstFaultStops(fields, keys, i);
  }

  /** Without a fault everything prints. */
  lemma FaultlessPrints(fields: map<string, Json>)
    requires forall k :: k in fields ==> Fault(k, fields[k]).None?
    ensures Print(fields).Ok?
  {
    NoFaultPrints(fields, SortedKeys(fields.Keys));
  }

  /** The validator accepts exactly the objects whose entries have no fault and whose null
      entries have names too. */
  lemma ValidatorAccepts(value: Json)
    ensures ValidateEnv(value) <==>
            value.Obj? && forall k :: k in value.fields ==> IsName(k) && Fault(k, value.fields[k]).None?
  {
    if value.Obj? {
      forall k | k in value.fields
        ensures IsValidEntry(k, value.fields[k]) <==> IsName(k) && Fault(k, value.fields[k]).None?
      {
        ValidKeysAreNames(k);
      }
    }
  }
}
