/** The server-push client (mac-mgmt-agent/src/server_push.rs): line reassembly over
    arbitrary chunks, event routing, reconnection backoff; and the dispatch of the
    forwarded commands (daemon/src/daemon.rs). */
module ServerPush {
  import opened Prelude
  import opened Text

  datatype Event =
    | Ping
    | SyncConfig
    | SyncSkills
    | SyncMcpServers
    | SyncPackages
    | SyncSshKeys
    | SelfUpdate
    | SyncNixpkgs
    | RequestAssessment
    | Targeted(instance: string, event: Event)

  /** This daemon's id and the JSON decoder for event payloads. */
  datatype Client = Client(me: string, decode: string -> Option<Event>)

  const DATA: string := "data:"

  /** The payload of a line, if it is a data line that decodes. */
  function Payload(line: string, client: Client): Option<Event> {
    var trimmed := Trim(line);
    if DATA <= trimmed then client.decode(Trim(trimmed[|DATA|..])) else None
  }

  /** Unwrap one targeting layer, drop what is not for us and drop pings. */
  function Route(event: Event, me: string): Option<Event> {
    if event.Targeted? && event.instance != me then
      None
    else
      var inner := if event.Targeted? then event.event else event;
      if inner.Ping? then None else Some(inner)
  }

  /** The command a line makes us forward, if any. */
  function Command(line: string, client: Client): Option<Event> {
    var payload := Payload(line, client);
    if payload.None? then None else Route(payload.value, client.me)
  }

  // ---- what a text should lead to ----------------------------------------------

  /** How long the first complete line of a text is, newline included; 0 if there is none. */
  function LengthToNewline(text: string): (n: nat)
    ensures n <= |text|
  {
    var i := IndexOf(text, '\n');
    if i.None? then 0 else i.value + 1
  }

  /** There is a complete line to take. */
  predicate HasLine(text: string) {
    LengthToNewline(text) > 0
  }

  /** The complete lines of a text, each with its newline. */
  function CompleteLines(text: string): seq<string>
    decreases |text|
  {
    if !HasLine(text) then []
    else [text[..LengthToNewline(text)]] + CompleteLines(text[LengthToNewline(text)..])
  }

  /** What follows the last newline. */
  function Tail(text: string): string
    decreases |text|
  {
    if !HasLine(text) then text else Tail(text[LengthToNewline(text)..])
  }

  /** What handling one line forwards. */
  type Handler = string -> Option<Event>

  /** The handler of a client. */
  function HandlerOf(client: Client): (handler: Handler)
    ensures forall line :: handler(line) == Command(line, client)
  {
    (line: string) => Command(line, client)
  }

  function Commands(lines: seq<string>, handler: Handler): seq<Event> {
    if lines == [] then [] else Listed(handler(lines[0])) + Commands(lines[1..], handler)
  }

  function Listed(event: Option<Event>): seq<Event> {
    if event.Some? then [event.value] else []
  }

  function Concat(chunks: seq<string>): string {
    if chunks == [] then "" else chunks[0] + Concat(chunks[1..])
  }

  lemma NewlineInFront(front: string, rest: string)
    requires LengthToNewline(front) > 0
    ensures LengthToNewline(front + rest) == LengthToNewline(front) <= |front|
  {
    var n := LengthToNewline(front) - 1;
    var text := front + rest;
    NotBeforeIndex(front, '\n');
    assert text[..n] == front[..n];
    IndexOfFirst(text, '\n', n);
  }

  /** Cutting a text anywhere: the lines of the front, then the lines of the front's
      tail joined with the rest. */
  lemma {:induction false} CutAnywhere(front: string, rest: string)
    ensures CompleteLines(front + rest) == CompleteLines(front) + CompleteLines(Tail(front) + rest)
    ensures Tail(front + rest) == Tail(Tail(front) + rest)
    decreases |front|
  {
    if HasLine(front) {
      var n, text := LengthToNewline(front), front + rest;
      NewlineInFront(front, rest);
      assert text[..n] == front[..n] && text[n..] == front[n..] + rest;
      CutAnywhere(front[n..], rest);
    } else {
      assert [] + CompleteLines(front + rest) == CompleteLines(front + rest);
    }
  }

  lemma {:induction false} CommandsAppend(a: seq<string>, b: seq<string>, handler: Handler)
    ensures Commands(a + b, handler) == Commands(a, handler) + Commands(b, handler)
    decreases |a|
  {
    if a == [] {
      assert a + b == b;
    } else {
      assert (a + b)[1..] == a[1..] + b;
      CommandsAppend(a[1..], b, handler);
    }
  }

  lemma {:induction false} TailHasNoLine(text: string)
    ensures !HasLine(Tail(text))
    decreases |text|
  {
    if HasLine(text) {
      TailHasNoLine(text[LengthToNewline(text)..]);
    }
  }

  /** Lines one after the other. */
  function Flat(lines: seq<string>): string {
    if lines == [] then "" else lines[0] + Flat(lines[1..])
  }

  predicate IsLine(line: string) {
    line != [] && line[|line| - 1] == '\n' && '\n' !in line[..|line| - 1]
  }

  /** The complete lines and the tail make up the text, each line ends at its only newline,
      and the tail has none: there is only one such way to cut a text. */
  lemma {:induction false} LinesMakeUpText(text: string)
    ensures Flat(CompleteLines(text)) + Tail(text) == text
    ensures forall line :: line in CompleteLines(text) ==> IsLine(line)
    ensures '\n' !in Tail(text)
    decreases |text|
  {
    if HasLine(text) {
      var n := LengthToNewline(text);
      FirstLineIs(text, n);
      LinesMakeUpText(text[n..]);
      FlatCons(text[..n], CompleteLines(text[n..]), Tail(text[n..]));
    } else {
      NotBeforeIndex(text, '\n');
      assert "" + text == text;
    }
  }

  lemma FirstLineIs(text: string, n: nat)
    requires HasLine(text) && n == LengthToNewline(text)
    ensures IsLine(text[..n]) && text == text[..n] + text[n..]
  {
    NotBeforeIndex(text, '\n');
    assert text[..n][..n - 1] == text[..n - 1];
  }

  lemma FlatCons(line: string, lines: seq<string>, tail: string)
    ensures Flat([line] + lines) + tail == line + (Flat(lines) + tail)
  {
    assert ([line] + lines)[1..] == lines;
  }

  // ---- the reader ----------------------------------------------------------------

  /** What the reader holds after some chunks: its buffer and what it forwarded. */
  datatype Reader = Reader(buffer: string, sent: seq<Event>)

  lemma ConcatFrom(seen: string, chunks: seq<string>)
    ensures seen + Concat(chunks) == if chunks == [] then seen else (seen + chunks[0]) + Concat(chunks[1..])
  {
  }

  /** The reader after draining, the room left at the receiver, and whether it hung up. */
  datatype Drained = Drained(reader: Reader, accepts: nat, hungUp: bool)

  /** One round of the inner loop: take the first line off the buffer and forward its
      command, if it has one. */
  function TakeFirst(reader: Reader, accepts: nat, handler: Handler): (drained: Drained)
    requires HasLine(reader.buffer)
    ensures |drained.reader.buffer| < |reader.buffer|
  {
    var n := LengthToNewline(reader.buffer);
    var command, rest := handler(reader.buffer[..n]), reader.buffer[n..];
    if command.None? then Drained(Reader(rest, reader.sent), accepts, false)
    else if accepts == 0 then Drained(Reader(rest, reader.sent), 0, true)
    else Drained(Reader(rest, reader.sent + [command.value]), accepts - 1, false)
  }

  /** The inner loop: take complete lines off the buffer until none is left or the
      receiver is gone. */
  function Drain(reader: Reader, accepts: nat, handler: Handler): Drained
    decreases |reader.buffer|
  {
    if !HasLine(reader.buffer) then
      Drained(reader, accepts, false)
    else
      var taken := TakeFirst(reader, accepts, handler);
      if taken.hungUp then taken else Drain(taken.reader, taken.accepts, handler)
  }

  /** Everything due was sent if the receiver takes that many, and only the tail is
      left; otherwise as many as it takes, in order, before it hung up. */
  predicate Delivers(drained: Drained, sent: seq<Event>, due: seq<Event>, tail: string, accepts: nat) {
    if |due| <= accepts
    then drained == Drained(Reader(tail, sent + due), accepts - |due|, false)
    else drained.hungUp && drained.reader.sent == sent + due[..accepts]
  }

  /** Draining a buffer sends the commands of its complete lines, in order. */
  lemma {:induction false} DrainSendsCommands(reader: Reader, accepts: nat, handler: Handler)
    ensures Delivers(Drain(reader, accepts, handler), reader.sent,
                     Commands(CompleteLines(reader.buffer), handler), Tail(reader.buffer), accepts)
    decreases |reader.buffer|
  {
    if !HasLine(reader.buffer) {
      assert reader.sent + [] == reader.sent;
    } else {
      var taken := TakeFirst(reader, accepts, handler);
      if !taken.hungUp {
        DrainSendsCommands(taken.reader, taken.accepts, handler);
      }
      var rest := taken.reader.buffer;
      DeliverFirst(reader, accepts, handler, Drain(reader, accepts, handler), Commands(CompleteLines(rest), handler), Tail(rest));
      CommandsOfFirst(reader.buffer, handler);
    }
  }

  lemma DeliverFirst(reader: Reader, accepts: nat, handler: Handler, drained: Drained, more: seq<Event>, tail: string)
    requires HasLine(reader.buffer)
    requires var taken := TakeFirst(reader, accepts, handler);
             if taken.hungUp then drained == taken else Delivers(drained, taken.reader.sent, more, tail, taken.accepts)
    ensures Delivers(drained, reader.sent,
                     Listed(handler(reader.buffer[..LengthToNewline(reader.buffer)])) + more, tail, accepts)
  {
    var command := handler(reader.buffer[..LengthToNewline(reader.buffer)]);
    if command.None? {
      assert [] + more == more;
    } else if accepts > 0 {
      DeliverOne(drained, reader.sent, command.value, more, tail, accepts);
    } else {
      assert reader.sent + ([command.value] + more)[..0] == reader.sent;
    }
  }

  lemma DeliverOne(drained: Drained, sent: seq<Event>, e: Event, more: seq<Event>, tail: string, accepts: nat)
    requires accepts > 0 && Delivers(drained, sent + [e], more, tail, accepts - 1)
    ensures Delivers(drained, sent, [e] + more, tail, accepts)
  {
    assert sent + [e] + more == sent + ([e] + more);
    if |more| >= accepts {
      assert sent + [e] + more[..accepts - 1] == sent + ([e] + more)[..accepts];
    }
  }

  lemma CommandsOfFirst(buffer: string, handler: Handler)
    requires HasLine(buffer)
    ensures var n := LengthToNewline(buffer);
            Commands(CompleteLines(buffer), handler)
            == Listed(handler(buffer[..n])) + Commands(CompleteLines(buffer[n..]), handler)
  {
    assert CompleteLines(buffer)[1..] == CompleteLines(buffer[LengthToNewline(buffer)..]);
  }

  /** Chunks one after the other, until the receiver hangs up. */
  function FeedAll(reader: Reader, accepts: nat, chunks: seq<string>, handler: Handler): Drained
    decreases |chunks|
  {
    if chunks == [] then
      Drained(reader, accepts, false)
    else
      var drained := Drain(Reader(reader.buffer + chunks[0], reader.sent), accepts, handler);
      if drained.hungUp then drained else FeedAll(drained.reader, drained.accepts, chunks[1..], handler)
  }

  lemma DeliverMore(drained: Drained, sent: seq<Event>, due: seq<Event>, more: seq<Event>, tail: string, accepts: nat)
    requires if |due| <= accepts then Delivers(drained, sent + due, more, tail, accepts - |due|)
             else drained.hungUp && drained.reader.sent == sent + due[..accepts]
    ensures Delivers(drained, sent, due + more, tail, accepts)
  {
    if |due| <= accepts {
      assert sent + due + more == sent + (due + more);
      if |more| > accepts - |due| {
        assert sent + due + more[..accepts - |due|] == sent + (due + more)[..accepts];
      }
    } else {
      assert (due + more)[..accepts] == due[..accepts];
    }
  }

  /** Over a whole connection, however the stream is cut: the receiver gets the
      commands of the stream's complete lines, in order, as many as it takes, and
      without a hang-up the buffer ends as the stream's unterminated tail. */
  lemma {:induction false} StreamIsDelivered(reader: Reader, accepts: nat, chunks: seq<string>, handler: Handler)
    requires !HasLine(reader.buffer)
    ensures var text := reader.buffer + Concat(chunks);
            Delivers(FeedAll(reader, accepts, chunks, handler), reader.sent,
                     Commands(CompleteLines(text), handler), Tail(text), accepts)
    decreases |chunks|
  {
    ConcatFrom(reader.buffer, chunks);
    if chunks == [] {
      assert reader.sent + [] == reader.sent;
    } else {
      var text := reader.buffer + chunks[0];
      var due := Commands(CompleteLines(text), handler);
      DrainSendsCommands(Reader(text, reader.sent), accepts, handler);
      StreamStep(text, chunks[1..], handler);
      var rest := Tail(text) + Concat(chunks[1..]);
      if |due| <= accepts {
        StreamIsDelivered(Reader(Tail(text), reader.sent + due), accepts - |due|, chunks[1..], handler);
      }
      DeliverMore(FeedAll(reader, accepts, chunks, handler), reader.sent, due,
                  Commands(CompleteLines(rest), handler), Tail(rest), accepts);
    }
  }

  lemma StreamStep(text: string, chunks: seq<string>, handler: Handler)
    ensures var tail := Tail(text);
            && !HasLine(tail)
            && Commands(CompleteLines(text + Concat(chunks)), handler)
               == Commands(CompleteLines(text), handler) + Commands(CompleteLines(tail + Concat(chunks)), handler)
            && Tail(text + Concat(chunks)) == Tail(tail + Concat(chunks))
  {
    TailHasNoLine(text);
    CutAnywhere(text, Concat(chunks));
    CommandsAppend(CompleteLines(text), CompleteLines(Tail(text) + Concat(chunks)), handler);
  }

  /** Two ways of cutting the same stream send the same commands. */
  lemma CuttingDoesNotMatter(one: seq<string>, other: seq<string>, accepts: nat, handler: Handler)
    requires Concat(one) == Concat(other)
    ensures var start := Reader("", []);
            var a, b := FeedAll(start, accepts, one, handler), FeedAll(start, accepts, other, handler);
            a.reader.sent == b.reader.sent && a.hungUp == b.hungUp && (!a.hungUp ==> a == b)
  {
    StreamIsDelivered(Reader("", []), accepts, one, handler);
    StreamIsDelivered(Reader("", []), accepts, other, handler);
  }

  /** One connection; the receiving side takes `accepts` more commands and then hangs up. */
  class Connection {
    const handler: Handler
    var buffer: string
    var sent: seq<Event>
    var accepts: nat

    constructor (handler: Handler, accepts: nat)
      ensures this.handler == handler && this.accepts == accepts && buffer == "" && sent == []
    {
      this.handler := handler;
      this.accepts := accepts;
      buffer := "";
      sent := [];
    }

    /** The body of the read loop: append the chunk and drain complete lines. The
        result tells whether the receiver hung up. */
    method Feed(chunk: string) returns (hungUp: bool)
      modifies this
      ensures Drained(Reader(buffer, sent), accepts, hungUp)
           == Drain(Reader(old(buffer) + chunk, old(sent)), old(accepts), handler)
    {
      buffer := buffer + chunk;
      ghost var goal := Drain(Reader(buffer, sent), accepts, handler);
      while HasLine(buffer)
        invariant Drain(Reader(buffer, sent), accepts, handler) == goal
        decreases |buffer|
      {
        hungUp := TakeLine();
        if hungUp {
          return true;
        }
      }
      return false;
    }

    method TakeLine() returns (hungUp: bool)
      requires HasLine(buffer)
      modifies this
      ensures Drained(Reader(buffer, sent), accepts, hungUp)
           == TakeFirst(Reader(old(buffer), old(sent)), old(accepts), handler)
    {
      var n := LengthToNewline(buffer);
      var command := handler(buffer[..n]);
      buffer := buffer[n..];
      if command.Some? {
        if accepts == 0 {
          return true;
        }
        sent := sent + [command.value];
        accepts := accepts - 1;
      }
      return false;
    }
  }

  // ---- routing and dispatch ----------------------------------------------------------

  datatype Handling = Reload | Handled(syncSshKeys: bool) | Unreachable

  /** The event loop's treatment of a forwarded command. */
  function Dispatch(event: Event): Handling {
    match event
    case SyncConfig => Reload
    case Ping => Unreachable
    case Targeted(_, _) => Unreachable
    case SyncSshKeys => Handled(true)
    case _ => Handled(false)
  }

  lemma {:induction false} CommandOrigin(lines: seq<string>, client: Client, e: Event)
    ensures e in Commands(lines, HandlerOf(client)) <==> exists line :: line in lines && Command(line, client) == Some(e)
    decreases |lines|
  {
    if lines != [] {
      CommandOrigin(lines[1..], client, e);
      assert lines == [lines[0]] + lines[1..];
      assert forall line :: line in lines <==> line == lines[0] || line in lines[1..];
    }
  }

  /** The line is a data line with that event in it. */
  ghost predicate Carries(line: string, client: Client, event: Event) {
    exists body: string :: Trim(line) == "data:" + body && client.decode(Trim(body)) == Some(event)
  }

  /** The line carries the event to us: addressed to us, or to everybody. */
  ghost predicate Brings(line: string, client: Client, event: Event) {
    Carries(line, client, Targeted(client.me, event)) || (Carries(line, client, event) && !event.Targeted?)
  }

  lemma PayloadIsCarried(line: string, client: Client, event: Event)
    ensures Payload(line, client) == Some(event) <==> Carries(line, client, event)
  {
    var trimmed := Trim(line);
    if Payload(line, client) == Some(event) {
      assert trimmed == "data:" + trimmed[|DATA|..];
    }
    if body :| trimmed == "data:" + body && client.decode(Trim(body)) == Some(event) {
      assert DATA <= trimmed && trimmed[|DATA|..] == body;
    }
  }

  /** What is forwarded, exactly: every event but a ping that some line brings us. */
  lemma ForwardedIffBrought(lines: seq<string>, client: Client, e: Event)
    ensures e in Commands(lines, HandlerOf(client)) <==> !e.Ping? && exists line :: line in lines && Brings(line, client, e)
  {
    CommandOrigin(lines, client, e);
    forall line ensures Command(line, client) == Some(e) <==> !e.Ping? && Brings(line, client, e) {
      PayloadIsCarried(line, client, Targeted(client.me, e));
      PayloadIsCarried(line, client, e);
    }
  }

  /** What the daemon does: it reloads its configuration exactly when a line brings a config
      sync, and syncs SSH keys exactly when one brings that. */
  lemma DispatchedIffBrought(lines: seq<string>, client: Client)
    ensures (exists e :: e in Commands(lines, HandlerOf(client)) && Dispatch(e).Reload?) <==>
            exists line :: line in lines && Brings(line, client, SyncConfig)
    ensures (exists e :: e in Commands(lines, HandlerOf(client)) && Dispatch(e) == Handled(true)) <==>
            exists line :: line in lines && Brings(line, client, SyncSshKeys)
  {
    ForwardedIffBrought(lines, client, SyncConfig);
    ForwardedIffBrought(lines, client, SyncSshKeys);
    assert Dispatch(SyncConfig).Reload? && Dispatch(SyncSshKeys) == Handled(true);
  }

  /** The line addresses us with an event that is itself targeted. */
  ghost predicate IsNested(line: string, client: Client) {
    exists e: Event :: e.Targeted? && Carries(line, client, Targeted(client.me, e))
  }

  lemma UnreachableOrigin(lines: seq<string>, client: Client, e: Event) returns (line: string)
    requires e in Commands(lines, HandlerOf(client)) && Dispatch(e).Unreachable?
    ensures line in lines && IsNested(line, client)
  {
    ForwardedIffBrought(lines, client, e);
    line :| line in lines && Brings(line, client, e);
    assert e.Targeted?;
    assert Carries(line, client, Targeted(client.me, e));
  }

  lemma BroughtIsForwarded(lines: seq<string>, client: Client, line: string, e: Event)
    requires line in lines && !e.Ping? && Brings(line, client, e)
    ensures e in Commands(lines, HandlerOf(client))
  {
    ForwardedIffBrought(lines, client, e);
  }

  lemma TargetedIsBrought(line: string, client: Client, e: Event)
    requires Carries(line, client, Targeted(client.me, e))
    ensures Brings(line, client, e)
  {
  }

  lemma NestedIsForwarded(lines: seq<string>, client: Client, line: string) returns (e: Event)
    requires line in lines && IsNested(line, client)
    ensures e in Commands(lines, HandlerOf(client)) && Dispatch(e).Unreachable?
  {
    e :| e.Targeted? && Carries(line, client, Targeted(client.me, e));
    TargetedIsBrought(line, client, e);
    BroughtIsForwarded(lines, client, line, e);
  }

  /** The dispatch runs into an `unreachable!` exactly when some line wraps a targeted
      event for us in another targeting layer. */
  lemma UnreachableIffNested(lines: seq<string>, client: Client)
    ensures (exists e :: e in Commands(lines, HandlerOf(client)) && Dispatch(e).Unreachable?)
       <==> (exists line :: line in lines && IsNested(line, client))
  {
    if e :| e in Commands(lines, HandlerOf(client)) && Dispatch(e).Unreachable? {
      var line := UnreachableOrigin(lines, client, e);
    }
    if line :| line in lines && IsNested(line, client) {
      var e := NestedIsForwarded(lines, client, line);
    }
  }

  // ---- reconnecting --------------------------------------------------------------------

  const MIN_BACKOFF: nat := 1
  const MAX_BACKOFF: nat := 60

  function Min(a: nat, b: nat): nat {
    if a < b then a else b
  }

  function Pow2(n: nat): nat {
    if n == 0 then 1 else 2 * Pow2(n - 1)
  }

  /** Failed attempts in a row just before attempt `n`; true is a clean close. */
  function FailureStreak(history: seq<bool>, n: nat): nat
    requires n <= |history|
  {
    if n == 0 || history[n - 1] then 0 else FailureStreak(history, n - 1) + 1
  }

  /** The streak is the run of failures right before attempt `n`. */
  lemma {:induction false} StreakIsTrailing(history: seq<bool>, n: nat)
    requires n <= |history|
    ensures var streak := FailureStreak(history, n);
            && streak <= n && (forall i :: n - streak <= i < n ==> !history[i])
            && (streak < n ==> history[n - streak - 1])
  {
    if n > 0 && !history[n - 1] {
      StreakIsTrailing(history, n - 1);
    }
  }

  /** The sleep after a failure that follows `streak` others. */
  function Backoff(streak: nat): nat {
    Min(Pow2(streak), 60)
  }

  /** The sleep after attempt `i`. */
  function Sleep(history: seq<bool>, i: nat): nat
    requires i < |history|
  {
    if history[i] then 0 else Backoff(FailureStreak(history, i))
  }

  lemma BackoffDoubles(streak: nat)
    ensures Min(Backoff(streak) * 2, MAX_BACKOFF) == Backoff(streak + 1)
  {
  }

  /** The connect loop over a history of outcomes: the seconds slept after each
      attempt. A failure after k earlier ones in a row sleeps min(2^k, 60) seconds;
      a clean close does not sleep. */
  method ReconnectLoop(history: seq<bool>) returns (slept: seq<nat>)
    ensures |slept| == |history|
    ensures forall i :: 0 <= i < |history| ==> slept[i] == Sleep(history, i)
  {
    slept := [];
    var backoff := MIN_BACKOFF;
    var i := 0;
    while i < |history|
      invariant 0 <= i <= |history| && |slept| == i
      invariant backoff == Backoff(FailureStreak(history, i))
      invariant forall j :: 0 <= j < i ==> slept[j] == Sleep(history, j)
    {
      if history[i] {
        slept := slept + [0];
        backoff := MIN_BACKOFF;
      } else {
        slept := slept + [backoff];
        BackoffDoubles(FailureStreak(history, i));
        backoff := Min(backoff * 2, MAX_BACKOFF);
      }
      i := i + 1;
    }
  }
}
