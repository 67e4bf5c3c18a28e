/** Text operations of Rust's `str`: searching, splitting, trimming and ordering. */
module Text {
  import opened Prelude

  /** The first position of `c`. */
  function IndexOf(s: string, c: char): (i: Option<nat>)
    ensures i.Some? ==> i.value < |s| && s[i.value] == c
  {
    if s == [] then
      None
    else if s[0] == c then
      Some(0)
    else
      var rest := IndexOf(s[1..], c);
      if rest.None? then None else Some(rest.value + 1)
  }

  lemma {:induction false} NotBeforeIndex(s: string, c: char)
    ensures var i := IndexOf(s, c);
            if i.Some? then c !in s[..i.value] else c !in s
  {
    if s != [] && s[0] != c {
      NotBeforeIndex(s[1..], c);
      var rest := IndexOf(s[1..], c);
      if rest.Some? {
        assert s[..rest.value + 1] == [s[0]] + s[1..][..rest.value];
      } else {
        assert s == [s[0]] + s[1..];
      }
    }
  }

  lemma {:induction false} IndexOfFirst(s: string, c: char, i: nat)
    requires i < |s| && s[i] == c && c !in s[..i]
    ensures IndexOf(s, c) == Some(i)
    decreases i
  {
    if i > 0 {
      assert s[..i][0] == s[0];
      assert s[1..][..i - 1] == s[..i][1..];
      IndexOfFirst(s[1..], c, i - 1);
    }
  }

  // ---- splitting -----------------------------------------------------------

  /** `split(sep)`: always at least one piece. */
  function Split(s: string, sep: char): (pieces: seq<string>)
    ensures pieces != []
    decreases |s|
  {
    var i := IndexOf(s, sep);
    if i.None? then [s] else [s[..i.value]] + Split(s[i.value + 1..], sep)
  }

  function Join(pieces: seq<string>, sep: char): string {
    if pieces == [] then ""
    else if |pieces| == 1 then pieces[0]
    else pieces[0] + [sep] + Join(pieces[1..], sep)
  }

  lemma {:induction false} JoinSplit(s: string, sep: char)
    ensures Join(Split(s, sep), sep) == s
    decreases |s|
  {
    var i := IndexOf(s, sep);
    if i.Some? {
      JoinSplit(s[i.value + 1..], sep);
      assert s == s[..i.value] + [sep] + s[i.value + 1..];
    }
  }

  /** The pieces hold no separator; with `JoinSplit` there is only one such list. */
  lemma {:induction false} PiecesHaveNoSeparator(s: string, sep: char)
    ensures forall piece :: piece in Split(s, sep) ==> sep !in piece
    decreases |s|
  {
    var i := IndexOf(s, sep);
    NotBeforeIndex(s, sep);
    if i.Some? {
      PiecesHaveNoSeparator(s[i.value + 1..], sep);
    }
  }

  // ---- white space ---------------------------------------------------------

  /** The Unicode White_Space property. */
  predicate IsWhitespace(c: char) {
    || '\t' <= c <= '\r' || c == ' ' || c == '\U{85}' || c == '\U{A0}' || c == '\U{1680}'
    || '\U{2000}' <= c <= '\U{200A}' || c == '\U{2028}' || c == '\U{2029}' || c == '\U{202F}'
    || c == '\U{205F}' || c == '\U{3000}'
  }

  /** The same property by code point. */
  lemma BlanksAre(c: char)
    ensures IsWhitespace(c) <==>
            var n := c as int;
            || 9 <= n <= 13 || n == 32 || n == 133 || n == 160 || n == 5760 || 8192 <= n <= 8202
            || n == 8232 || n == 8233 || n == 8239 || n == 8287 || n == 12288
  {
  }

  function TrimStart(s: string): string {
    if s != [] && IsWhitespace(s[0]) then TrimStart(s[1..]) else s
  }

  function TrimEnd(s: string): string {
    if s != [] && IsWhitespace(s[|s| - 1]) then TrimEnd(s[..|s| - 1]) else s
  }

  function Trim(s: string): string {
    TrimEnd(TrimStart(s))
  }

  predicate EndsBlank(s: string) {
    s != [] && IsWhitespace(s[|s| - 1])
  }

  lemma {:induction false} TrimEndFacts(s: string)
    ensures TrimEnd(s) <= s && !EndsBlank(TrimEnd(s))
    ensures TrimEnd(s) == s <==> !EndsBlank(s)
    decreases |s|
  {
    if EndsBlank(s) {
      TrimEndFacts(s[..|s| - 1]);
    }
  }

  /** Only the part after the last non-blank can be trimmed away. */
  lemma {:induction false} TrimEndAppend(a: string, b: string)
    requires a != [] && !EndsBlank(a)
    ensures TrimEnd(a + b) == a + TrimEnd(b)
    decreases |b|
  {
    if b == [] {
      assert a + b == a;
    } else if EndsBlank(b) {
      assert (a + b)[..|a + b| - 1] == a + b[..|b| - 1];
      TrimEndAppend(a, b[..|b| - 1]);
    }
  }

  lemma {:induction false} TrimStartIsSuffix(s: string)
    ensures exists n: nat :: n <= |s| && TrimStart(s) == s[n..]
    decreases |s|
  {
    if s != [] && IsWhitespace(s[0]) {
      TrimStartIsSuffix(s[1..]);
      var n: nat :| n <= |s[1..]| && TrimStart(s[1..]) == s[1..][n..];
      assert s[1..][n..] == s[n + 1..];
    } else {
      assert s[0..] == s;
    }
  }

  /** Trimming invents no character and leaves no blank at the end. */
  lemma TrimFacts(s: string)
    ensures forall c :: c in Trim(s) ==> c in s
    ensures !EndsBlank(Trim(s))
  {
    TrimStartIsSuffix(s);
    TrimEndFacts(TrimStart(s));
  }

  /** Dropping one trailing carriage return does not change the trimmed text. */
  function DropCr(line: string): string {
    if line != [] && line[|line| - 1] == '\r' then line[..|line| - 1] else line
  }

  lemma {:induction false} TrimStartAppendBlank(s: string)
    ensures TrimEnd(TrimStart(s + "\r")) == TrimEnd(TrimStart(s))
    decreases |s|
  {
    if s == [] {
      assert s + "\r" == "\r" && "\r"[1..] == [];
    } else if IsWhitespace(s[0]) {
      assert (s + "\r")[1..] == s[1..] + "\r";
      TrimStartAppendBlank(s[1..]);
    } else {
      assert (s + "\r")[..|s|] == s;
    }
  }

  lemma TrimDropCr(line: string)
    ensures Trim(DropCr(line)) == Trim(line)
  {
    if line != [] && line[|line| - 1] == '\r' {
      assert line == line[..|line| - 1] + "\r";
      TrimStartAppendBlank(line[..|line| - 1]);
    }
  }

  // ---- lines ---------------------------------------------------------------

  /** `str::lines`: pieces ended by a newline, a preceding carriage return dropped,
      and a last piece without newline if there is one. */
  function Lines(text: string): seq<string>
    decreases |text|
  {
    if text == [] then
      []
    else
      var i := IndexOf(text, '\n');
      if i.None? then [text] else [DropCr(text[..i.value])] + Lines(text[i.value + 1..])
  }

  lemma LinesCons(line: string, rest: string)
    requires '\n' !in line
    ensures Lines(line + "\n" + rest) == [DropCr(line)] + Lines(rest)
  {
    var text := line + "\n" + rest;
    assert text[..|line|] == line && text[|line|] == '\n' && text[|line| + 1..] == rest;
    IndexOfFirst(text, '\n', |line|);
  }

  lemma {:induction false} LinesHaveNoNewline(text: string)
    ensures forall line :: line in Lines(text) ==> '\n' !in line
    decreases |text|
  {
    if text != [] {
      var i := IndexOf(text, '\n');
      NotBeforeIndex(text, '\n');
      if i.Some? {
        LinesHaveNoNewline(text[i.value + 1..]);
      }
    }
  }

  // ---- order ---------------------------------------------------------------

  /** The order of Rust strings: lexicographic by code point. */
  predicate Less(a: string, b: string) {
    if b == [] then false
    else if a == [] then true
    else a[0] < b[0] || (a[0] == b[0] && Less(a[1..], b[1..]))
  }

  /** Two texts agree up to position `i`, where the first ends or has the smaller character. */
  predicate LessFrom(a: string, b: string, i: nat) {
    i <= |a| && i < |b| && a[..i] == b[..i] && (i == |a| || a[i] < b[i])
  }

  lemma {:induction false} LessIff(a: string, b: string)
    ensures Less(a, b) <==> exists i: nat :: LessFrom(a, b, i)
    decreases |a|
  {
    if b != [] && (a == [] || a[0] < b[0]) {
      assert LessFrom(a, b, 0);
    } else if a != [] && b != [] && a[0] == b[0] {
      LessIff(a[1..], b[1..]);
      if i: nat :| LessFrom(a[1..], b[1..], i) {
        assert a[..i + 1] == [a[0]] + a[1..][..i] && b[..i + 1] == [b[0]] + b[1..][..i];
        assert LessFrom(a, b, i + 1);
      }
      if i: nat :| LessFrom(a, b, i) {
        assert i > 0;
        assert a[1..][..i - 1] == a[..i][1..] && b[1..][..i - 1] == b[..i][1..];
        assert LessFrom(a[1..], b[1..], i - 1);
      }
    } else if a != [] && b != [] {
      assert forall i: nat :: LessFrom(a, b, i) && i > 0 ==> a[..i][0] == b[..i][0];
    }
  }

  lemma {:induction false} LessIsTotal(a: string, b: string)
    ensures Less(a, b) || a == b || Less(b, a)
    ensures !(Less(a, b) && Less(b, a)) && !(a == b && Less(a, b))
  {
    if a != [] && b != [] && a[0] == b[0] {
      LessIsTotal(a[1..], b[1..]);
      assert a == [a[0]] + a[1..] && b == [b[0]] + b[1..];
    }
  }

  lemma {:induction false} LessIsTransitive(a: string, b: string, c: string)
    requires Less(a, b) && Less(b, c)
    ensures Less(a, c)
  {
    if a != [] && a[0] == b[0] == c[0] {
      LessIsTransitive(a[1..], b[1..], c[1..]);
    }
  }

  ghost predicate IsLeast(k: string, keys: set<string>) {
    k in keys && forall other :: other in keys && other != k ==> Less(k, other)
  }

  lemma {:induction false} LeastExists(keys: set<string>) returns (k: string)
    requires keys != {}
    ensures IsLeast(k, keys)
    decreases |keys|
  {
    k :| k in keys;
    if keys != {k} {
      var rest := LeastExists(keys - {k});
      LessIsTotal(k, rest);
      if Less(rest, k) {
        k := rest;
      } else {
        forall other | other in keys && other != k ensures Less(k, other) {
          if other != rest {
            LessIsTransitive(k, rest, other);
          }
        }
      }
    }
  }

  /** The keys in increasing order, as a BTreeMap iterates them. */
  ghost function SortedKeys(keys: set<string>): (sorted: seq<string>)
    ensures |sorted| == |keys|
    ensures forall k :: k in sorted <==> k in keys
    decreases |keys|
  {
    if keys == {} then
      []
    else
      var least := Least(keys);
      [least] + SortedKeys(keys - {least})
  }

  ghost function Least(keys: set<string>): (k: string)
    requires keys != {}
    ensures IsLeast(k, keys)
  {
    assert exists k :: IsLeast(k, keys) by {
      var k := LeastExists(keys);
    }
    var k :| IsLeast(k, keys);
    k
  }

  lemma SortedKeysFrom(keys: set<string>, k: string)
    requires IsLeast(k, keys)
    ensures SortedKeys(keys) == [k] + SortedKeys(keys - {k})
  {
    LessIsTotal(k, Least(keys));
  }
}
