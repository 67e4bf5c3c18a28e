/** Shell tunnel sessions (mac-mgmt-agent/src/shell_tunnels.rs `handle_exec_session`):
    two line streams merged into one frame stream, closed by one exit frame. */
module ShellSessions {
  import opened Prelude

  /** One of the process's output pipes: its lines, and whether reading ends in an
      error instead of end of file. */
  datatype Pipe = Pipe(lines: seq<TextLine>, broken: bool)

  /** Which branch of the select fires. */
  datatype Choice = Stdout | Stderr | Timeout

  datatype Frame = OutLine(line: TextLine) | ErrLine(line: TextLine) | Exit(code: int) | End

  datatype Session =
    | Refused
    | Virtual(output: seq<Frame>, virtualCode: int)
    | SpawnFailed
    | Process(out: Pipe, err: Pipe, schedule: nat -> Choice, code: int)

  /** The frames of the merge, and whether it ended by timeout. */
  datatype Merge = Merge(frames: seq<Frame>, timedOut: bool)

  function Then(frame: Frame, rest: Merge): Merge {
    Merge([frame] + rest.frames, rest.timedOut)
  }

  function Outs(lines: seq<TextLine>): (frames: seq<Frame>)
    ensures |frames| == |lines| && forall i :: 0 <= i < |lines| ==> frames[i] == OutLine(lines[i])
  {
    seq(|lines|, i requires 0 <= i < |lines| => OutLine(lines[i]))
  }

  function Errs(lines: seq<TextLine>): (frames: seq<Frame>)
    ensures |frames| == |lines| && forall i :: 0 <= i < |lines| ==> frames[i] == ErrLine(lines[i])
  {
    seq(|lines|, i requires 0 <= i < |lines| => ErrLine(lines[i]))
  }

  /** The select loop from its `t`-th turn on: a line is sent, the end of one pipe
      drains the other, a read error stops, a timeout stops. */
  function Merged(out: Pipe, err: Pipe, schedule: nat -> Choice, t: nat): Merge
    decreases |out.lines| + |err.lines|
  {
    match schedule(t)
    case Timeout => Merge([], true)
    case Stdout =>
      if out.lines != [] then Then(OutLine(out.lines[0]), Merged(out.(lines := out.lines[1..]), err, schedule, t + 1))
      else if out.broken then Merge([], false)
      else Merge(Errs(err.lines), false)
    case Stderr =>
      if err.lines != [] then Then(ErrLine(err.lines[0]), Merged(out, err.(lines := err.lines[1..]), schedule, t + 1))
      else if err.broken then Merge([], false)
      else Merge(Outs(out.lines), false)
  }

  predicate IsOutput(frame: Frame) {
    frame.OutLine? || frame.ErrLine?
  }

  /** Everything a session sends. */
  function Sent(session: Session): seq<Frame> {
    match session
    case Refused => [Exit(-1), End]
    case SpawnFailed => [Exit(-1), End]
    case Virtual(output, code) => output + [Exit(code), End]
    case Process(out, err, schedule, code) =>
      var merged := Merged(out, err, schedule, 0);
      merged.frames + [Exit(if merged.timedOut then -1 else code), End]
  }

  /** The handler, with the peer's inbox as an accumulator. */
  method HandleExecSession(session: Session) returns (sent: seq<Frame>)
    ensures sent == Sent(session)
  {
    match session
    case Refused => return [Exit(-1), End];
    case SpawnFailed => return [Exit(-1), End];
    case Virtual(output, code) =>
      sent := [];
      for i := 0 to |output|
        invariant sent == output[..i]
      {
        sent := sent + [output[i]];
      }
      sent := sent + [Exit(code), End];
    case Process(out, err, schedule, code) =>
      var frames, timedOut := StreamOutput(out, err, schedule);
      sent := frames + [Exit(if timedOut then -1 else code), End];
  }

  /** The select loop. */
  method StreamOutput(stdout: Pipe, stderr: Pipe, schedule: nat -> Choice) returns (sent: seq<Frame>, timedOut: bool)
    ensures Merge(sent, timedOut) == Merged(stdout, stderr, schedule, 0)
  {
    sent, timedOut := [], false;
    var out, err, t := stdout, stderr, 0;
    ghost var whole := Merged(stdout, stderr, schedule, 0);
    SentNothing(whole);
    while true
      invariant whole == Onto(sent, Merged(out, err, schedule, t))
      decreases |out.lines| + |err.lines|
    {
      match schedule(t) {
        case Timeout =>
          NothingMore(sent);
          return sent, true;
        case Stdout =>
          if out.lines == [] {
            NothingMore(sent);
            return sent + (if out.broken then [] else Errs(err.lines)), false;
          }
          SentOne(sent, OutLine(out.lines[0]), Merged(out.(lines := out.lines[1..]), err, schedule, t + 1));
          sent := sent + [OutLine(out.lines[0])];
          out := out.(lines := out.lines[1..]);
        case Stderr =>
          if err.lines == [] {
            NothingMore(sent);
            return sent + (if err.broken then [] else Outs(out.lines)), false;
          }
          SentOne(sent, ErrLine(err.lines[0]), Merged(out, err.(lines := err.lines[1..]), schedule, t + 1));
          sent := sent + [ErrLine(err.lines[0])];
          err := err.(lines := err.lines[1..]);
      }
      t := t + 1;
    }
  }

  /** What is sent in all, given what went out already. */
  function Onto(sent: seq<Frame>, rest: Merge): Merge {
    Merge(sent + rest.frames, rest.timedOut)
  }

  lemma SentNothing(rest: Merge)
    ensures Onto([], rest) == rest
  {
  }

  lemma NothingMore(sent: seq<Frame>)
    ensures sent + [] == sent
  {
  }

  lemma SentOne(sent: seq<Frame>, frame: Frame, rest: Merge)
    ensures Onto(sent, Then(frame, rest)) == Onto(sent + [frame], rest)
  {
  }

  // ---- what the peer sees -----------------------------------------------------------

  function OutLines(frames: seq<Frame>): seq<TextLine> {
    if frames == [] then []
    else (if frames[0].OutLine? then [frames[0].line] else []) + OutLines(frames[1..])
  }

  function ErrLines(frames: seq<Frame>): seq<TextLine> {
    if frames == [] then []
    else (if frames[0].ErrLine? then [frames[0].line] else []) + ErrLines(frames[1..])
  }

  lemma {:induction false} LinesOfBlocks(lines: seq<TextLine>)
    ensures OutLines(Outs(lines)) == lines && ErrLines(Outs(lines)) == []
    ensures ErrLines(Errs(lines)) == lines && OutLines(Errs(lines)) == []
    decreases |lines|
  {
    if lines != [] {
      LinesOfBlocks(lines[1..]);
      assert Outs(lines)[1..] == Outs(lines[1..]) && Errs(lines)[1..] == Errs(lines[1..]);
    }
  }

  /** Each pipe arrives as a prefix of its lines, in order; completely, if `all`. */
  predicate Faithful(frames: seq<Frame>, out: seq<TextLine>, err: seq<TextLine>, all: bool) {
    && OutLines(frames) <= out && ErrLines(frames) <= err
    && (forall i :: 0 <= i < |frames| ==> IsOutput(frames[i]))
    && (all ==> OutLines(frames) == out && ErrLines(frames) == err)
  }

  lemma FaithfulOut(frames: seq<Frame>, line: TextLine, out: seq<TextLine>, err: seq<TextLine>, all: bool)
    requires out != [] && out[0] == line && Faithful(frames, out[1..], err, all)
    ensures Faithful([OutLine(line)] + frames, out, err, all)
  {
    assert ([OutLine(line)] + frames)[1..] == frames;
  }

  lemma FaithfulErr(frames: seq<Frame>, line: TextLine, out: seq<TextLine>, err: seq<TextLine>, all: bool)
    requires err != [] && err[0] == line && Faithful(frames, out, err[1..], all)
    ensures Faithful([ErrLine(line)] + frames, out, err, all)
  {
    assert ([ErrLine(line)] + frames)[1..] == frames;
  }

  lemma FaithfulRest(lines: seq<TextLine>, all: bool)
    ensures Faithful(Errs(lines), [], lines, all) && Faithful(Outs(lines), lines, [], all)
  {
    LinesOfBlocks(lines);
  }

  ghost predicate Undisturbed(out: Pipe, err: Pipe, schedule: nat -> Choice, t: nat) {
    !out.broken && !err.broken && forall n: nat :: n >= t ==> schedule(n) != Timeout
  }

  /** Whatever the interleaving, each pipe arrives as a prefix of its lines, in order;
      completely, if neither pipe breaks and no timeout fires. */
  lemma {:induction false} MergeKeepsOrder(out: Pipe, err: Pipe, schedule: nat -> Choice, t: nat, all: bool)
    requires all ==> Undisturbed(out, err, schedule, t)
    ensures Faithful(Merged(out, err, schedule, t).frames, out.lines, err.lines, all)
    decreases |out.lines| + |err.lines|
  {
    match schedule(t)
    case Timeout =>
    case Stdout =>
      if out.lines == [] {
        FaithfulRest(err.lines, all);
      } else {
        var rest := out.(lines := out.lines[1..]);
        MergeKeepsOrder(rest, err, schedule, t + 1, all);
        FaithfulOut(Merged(rest, err, schedule, t + 1).frames, out.lines[0], out.lines, err.lines, all);
      }
    case Stderr =>
      if err.lines == [] {
        FaithfulRest(out.lines, all);
      } else {
        var rest := err.(lines := err.lines[1..]);
        MergeKeepsOrder(out, rest, schedule, t + 1, all);
        FaithfulErr(Merged(out, rest, schedule, t + 1).frames, err.lines[0], out.lines, err.lines, all);
      }
  }

  /** What the peer reads on each stream of a process session that is not cut short
      is what the process wrote there. */
  lemma StreamsArriveWhole(out: Pipe, err: Pipe, schedule: nat -> Choice)
    requires Undisturbed(out, err, schedule, 0)
    ensures OutLines(Merged(out, err, schedule, 0).frames) == out.lines
    ensures ErrLines(Merged(out, err, schedule, 0).frames) == err.lines
  {
    MergeKeepsOrder(out, err, schedule, 0, true);
  }

  // ---- turn by turn ---------------------------------------------------------------------

  /** How often a branch fires in the `n` turns from turn `t` on. */
  function Turns(schedule: nat -> Choice, t: nat, choice: Choice, n: nat): nat
    decreases n
  {
    if n == 0 then 0 else (if schedule(t) == choice then 1 else 0) + Turns(schedule, t + 1, choice, n - 1)
  }

  /** Turn `m` after `t` finds a line on the pipe it reads. */
  predicate FindsLine(out: Pipe, err: Pipe, schedule: nat -> Choice, t: nat, m: nat) {
    match schedule(t + m)
    case Timeout => false
    case Stdout => Turns(schedule, t, Stdout, m) < |out.lines|
    case Stderr => Turns(schedule, t, Stderr, m) < |err.lines|
  }

  /** The first `n` turns find lines. */
  predicate AllFind(out: Pipe, err: Pipe, schedule: nat -> Choice, t: nat, n: nat) {
    forall m: nat :: m < n ==> FindsLine(out, err, schedule, t, m)
  }

  /** And the next one does not. */
  predicate StopsAt(out: Pipe, err: Pipe, schedule: nat -> Choice, t: nat, n: nat) {
    AllFind(out, err, schedule, t, n) && !FindsLine(out, err, schedule, t, n)
  }

  /** What is sent when the turns are over: nothing after a timeout or a read error,
      otherwise the rest of the other pipe. */
  function RestAt(out: Pipe, err: Pipe, schedule: nat -> Choice, t: nat, n: nat): seq<Frame>
    requires Turns(schedule, t, Stdout, n) <= |out.lines| && Turns(schedule, t, Stderr, n) <= |err.lines|
  {
    match schedule(t + n)
    case Timeout => []
    case Stdout => if out.broken then [] else Errs(err.lines[Turns(schedule, t, Stderr, n)..])
    case Stderr => if err.broken then [] else Outs(out.lines[Turns(schedule, t, Stdout, n)..])
  }

  lemma {:induction false} TurnsFit(out: Pipe, err: Pipe, schedule: nat -> Choice, t: nat, n: nat)
    requires AllFind(out, err, schedule, t, n)
    ensures Turns(schedule, t, Stdout, n) <= |out.lines| && Turns(schedule, t, Stderr, n) <= |err.lines|
    decreases n
  {
    if n > 0 {
      TurnsFit(out, err, schedule, t, n - 1);
      TurnsSnoc(schedule, t, Stdout, n - 1);
      TurnsSnoc(schedule, t, Stderr, n - 1);
      assert FindsLine(out, err, schedule, t, n - 1);
    }
  }

  lemma {:induction false} TurnsSnoc(schedule: nat -> Choice, t: nat, choice: Choice, n: nat)
    ensures Turns(schedule, t, choice, n + 1) == Turns(schedule, t, choice, n) + (if schedule(t + n) == choice then 1 else 0)
    decreases n
  {
    if n > 0 {
      TurnsSnoc(schedule, t + 1, choice, n - 1);
    }
  }

  /** The pipes after the first turn. */
  function AfterTurn(pipe: Pipe, taken: bool): Pipe
    requires taken ==> pipe.lines != []
  {
    if taken then pipe.(lines := pipe.lines[1..]) else pipe
  }

  lemma FindsLineLater(out: Pipe, err: Pipe, schedule: nat -> Choice, t: nat, m: nat)
    requires FindsLine(out, err, schedule, t, 0)
    ensures FindsLine(AfterTurn(out, schedule(t) == Stdout), AfterTurn(err, schedule(t) == Stderr), schedule, t + 1, m)
       <==> FindsLine(out, err, schedule, t, m + 1)
  {
  }

  /** The line turn `m` after `t` sends. */
  function Turn(out: Pipe, err: Pipe, schedule: nat -> Choice, t: nat, m: nat): Frame
    requires FindsLine(out, err, schedule, t, m)
  {
    if schedule(t + m) == Stdout then OutLine(out.lines[Turns(schedule, t, Stdout, m)])
    else ErrLine(err.lines[Turns(schedule, t, Stderr, m)])
  }

  lemma FirstTurn(out: Pipe, err: Pipe, schedule: nat -> Choice, t: nat)
    requires FindsLine(out, err, schedule, t, 0)
    ensures Merged(out, err, schedule, t) ==
            Then(Turn(out, err, schedule, t, 0),
                 Merged(AfterTurn(out, schedule(t) == Stdout), AfterTurn(err, schedule(t) == Stderr), schedule, t + 1))
  {
  }

  lemma AllFindLater(out: Pipe, err: Pipe, schedule: nat -> Choice, t: nat, n: nat)
    requires n > 0 && AllFind(out, err, schedule, t, n)
    ensures FindsLine(out, err, schedule, t, 0)
    ensures AllFind(AfterTurn(out, schedule(t) == Stdout), AfterTurn(err, schedule(t) == Stderr), schedule, t + 1, n - 1)
  {
    assert FindsLine(out, err, schedule, t, 0);
    var nextOut, nextErr, later := AfterTurn(out, schedule(t) == Stdout), AfterTurn(err, schedule(t) == Stderr), t + 1;
    forall m: nat | m < n - 1 ensures FindsLine(nextOut, nextErr, schedule, later, m) {
      FindsLineLater(out, err, schedule, t, m);
      assert FindsLine(out, err, schedule, t, m + 1);
    }
  }

  lemma TurnLater(out: Pipe, err: Pipe, schedule: nat -> Choice, t: nat, m: nat)
    requires FindsLine(out, err, schedule, t, 0) && FindsLine(out, err, schedule, t, m + 1)
    ensures var nextOut, nextErr := AfterTurn(out, schedule(t) == Stdout), AfterTurn(err, schedule(t) == Stderr);
            && FindsLine(nextOut, nextErr, schedule, t + 1, m)
            && Turn(nextOut, nextErr, schedule, t + 1, m) == Turn(out, err, schedule, t, m + 1)
  {
  }

  /** Turn `m` sends the next line of the pipe it reads, as long as every turn so far
      found one. */
  lemma {:induction false} TurnSends(out: Pipe, err: Pipe, schedule: nat -> Choice, t: nat, m: nat)
    requires AllFind(out, err, schedule, t, m + 1)
    ensures FindsLine(out, err, schedule, t, m)
    ensures var frames := Merged(out, err, schedule, t).frames;
            |frames| > m && frames[m] == Turn(out, err, schedule, t, m)
    decreases m
  {
    AllFindLater(out, err, schedule, t, m + 1);
    if m == 0 {
      FirstTurn(out, err, schedule, t);
    } else {
      TurnSends(AfterTurn(out, schedule(t) == Stdout), AfterTurn(err, schedule(t) == Stderr), schedule, t + 1, m - 1);
      assert FindsLine(out, err, schedule, t, m);
      SendsEarlier(out, err, schedule, t, m);
    }
  }

  lemma SendsEarlier(out: Pipe, err: Pipe, schedule: nat -> Choice, t: nat, m: nat)
    requires m > 0 && FindsLine(out, err, schedule, t, 0) && FindsLine(out, err, schedule, t, m)
    requires var nextOut, nextErr := AfterTurn(out, schedule(t) == Stdout), AfterTurn(err, schedule(t) == Stderr);
             var frames := Merged(nextOut, nextErr, schedule, t + 1).frames;
             && FindsLine(nextOut, nextErr, schedule, t + 1, m - 1)
             && |frames| > m - 1 && frames[m - 1] == Turn(nextOut, nextErr, schedule, t + 1, m - 1)
    ensures var frames := Merged(out, err, schedule, t).frames;
            |frames| > m && frames[m] == Turn(out, err, schedule, t, m)
  {
    FirstTurn(out, err, schedule, t);
    TurnLater(out, err, schedule, t, m - 1);
  }

  /** After `n` lines the merge goes on with `rest` and ends, by timeout or not. */
  predicate EndsWith(merged: Merge, n: nat, rest: seq<Frame>, timedOut: bool) {
    |merged.frames| >= n && merged.frames[n..] == rest && merged.timedOut == timedOut
  }

  /** The turn that finds no line decides what is still sent and whether it was a timeout. */
  lemma {:induction false} TurnStops(out: Pipe, err: Pipe, schedule: nat -> Choice, t: nat, n: nat)
    requires StopsAt(out, err, schedule, t, n)
    ensures Turns(schedule, t, Stdout, n) <= |out.lines| && Turns(schedule, t, Stderr, n) <= |err.lines|
    ensures EndsWith(Merged(out, err, schedule, t), n, RestAt(out, err, schedule, t, n), schedule(t + n) == Timeout)
    decreases n
  {
    TurnsFit(out, err, schedule, t, n);
    if n == 0 {
      StopNow(out, err, schedule, t);
    } else {
      StopsLater(out, err, schedule, t, n);
      TurnStops(AfterTurn(out, schedule(t) == Stdout), AfterTurn(err, schedule(t) == Stderr), schedule, t + 1, n - 1);
      StopsEarlier(out, err, schedule, t, n);
    }
  }

  lemma StopsLater(out: Pipe, err: Pipe, schedule: nat -> Choice, t: nat, n: nat)
    requires n > 0 && StopsAt(out, err, schedule, t, n)
    ensures FindsLine(out, err, schedule, t, 0)
    ensures StopsAt(AfterTurn(out, schedule(t) == Stdout), AfterTurn(err, schedule(t) == Stderr), schedule, t + 1, n - 1)
  {
    AllFindLater(out, err, schedule, t, n);
    FindsLineLater(out, err, schedule, t, n - 1);
  }

  lemma StopsEarlier(out: Pipe, err: Pipe, schedule: nat -> Choice, t: nat, n: nat)
    requires n > 0 && StopsAt(out, err, schedule, t, n) && FindsLine(out, err, schedule, t, 0)
    requires Turns(schedule, t, Stdout, n) <= |out.lines| && Turns(schedule, t, Stderr, n) <= |err.lines|
    requires var nextOut, nextErr := AfterTurn(out, schedule(t) == Stdout), AfterTurn(err, schedule(t) == Stderr);
             && Turns(schedule, t + 1, Stdout, n - 1) <= |nextOut.lines| && Turns(schedule, t + 1, Stderr, n - 1) <= |nextErr.lines|
             && EndsWith(Merged(nextOut, nextErr, schedule, t + 1), n - 1,
                         RestAt(nextOut, nextErr, schedule, t + 1, n - 1), schedule(t + n) == Timeout)
    ensures EndsWith(Merged(out, err, schedule, t), n, RestAt(out, err, schedule, t, n), schedule(t + n) == Timeout)
  {
    RestLater(out, err, schedule, t, n);
    FirstTurn(out, err, schedule, t);
    EndsLater(Turn(out, err, schedule, t, 0),
              Merged(AfterTurn(out, schedule(t) == Stdout), AfterTurn(err, schedule(t) == Stderr), schedule, t + 1), n,
              RestAt(out, err, schedule, t, n), schedule(t + n) == Timeout);
  }

  lemma StopNow(out: Pipe, err: Pipe, schedule: nat -> Choice, t: nat)
    requires !FindsLine(out, err, schedule, t, 0)
    ensures var merged := Merged(out, err, schedule, t);
            merged.frames == RestAt(out, err, schedule, t, 0) && (merged.timedOut <==> schedule(t) == Timeout)
  {
    assert out.lines[0..] == out.lines && err.lines[0..] == err.lines;
  }

  lemma EndsLater(frame: Frame, merged: Merge, n: nat, rest: seq<Frame>, timedOut: bool)
    requires n > 0 && EndsWith(merged, n - 1, rest, timedOut)
    ensures EndsWith(Then(frame, merged), n, rest, timedOut)
  {
    assert ([frame] + merged.frames)[n..] == merged.frames[n - 1..];
  }

  lemma RestLater(out: Pipe, err: Pipe, schedule: nat -> Choice, t: nat, n: nat)
    requires n > 0 && AllFind(out, err, schedule, t, n)
    requires Turns(schedule, t, Stdout, n) <= |out.lines| && Turns(schedule, t, Stderr, n) <= |err.lines|
    ensures FindsLine(out, err, schedule, t, 0)
    ensures var nextOut, nextErr := AfterTurn(out, schedule(t) == Stdout), AfterTurn(err, schedule(t) == Stderr);
            && Turns(schedule, t + 1, Stdout, n - 1) <= |nextOut.lines| && Turns(schedule, t + 1, Stderr, n - 1) <= |nextErr.lines|
            && RestAt(nextOut, nextErr, schedule, t + 1, n - 1) == RestAt(out, err, schedule, t, n)
  {
    assert FindsLine(out, err, schedule, t, 0);
    var a, b := Turns(schedule, t + 1, Stdout, n - 1), Turns(schedule, t + 1, Stderr, n - 1);
    if schedule(t) == Stdout {
      assert out.lines[1..][a..] == out.lines[a + 1..];
    } else {
      assert err.lines[1..][b..] == err.lines[b + 1..];
    }
  }

  /** The exit code a session reports. */
  function ReportedCode(session: Session, n: nat): int {
    match session
    case Refused => -1
    case SpawnFailed => -1
    case Virtual(_, code) => code
    case Process(_, _, schedule, code) => if schedule(n) == Timeout then -1 else code
  }

  /** Every session, however it goes, is output frames followed by exactly one exit
      frame and the end of the stream; a virtual handler may print anything as output. A
      refused argument, a failed spawn and a timeout, which comes at turn `n` of a process
      whose turns stop there, are reported as -1. */
  lemma SessionsEndOnce(session: Session, n: nat)
    requires session.Virtual? ==> forall f :: f in session.output ==> IsOutput(f)
    requires session.Process? ==> StopsAt(session.out, session.err, session.schedule, 0, n)
    ensures var sent := Sent(session);
            && |sent| >= 2 && sent[|sent| - 2] == Exit(ReportedCode(session, n)) && sent[|sent| - 1] == End
            && (forall i :: 0 <= i < |sent| - 2 ==> IsOutput(sent[i]))
            && (session.Virtual? ==> sent[..|sent| - 2] == session.output)
            && (session.Refused? || session.SpawnFailed? ==> |sent| == 2)
  {
    if session.Process? {
      MergeKeepsOrder(session.out, session.err, session.schedule, 0, false);
      TurnStops(session.out, session.err, session.schedule, 0, n);
    }
  }

  /** The turns of every process stop somewhere. */
  lemma {:induction false} TurnsStop(out: Pipe, err: Pipe, schedule: nat -> Choice, t: nat) returns (n: nat)
    ensures StopsAt(out, err, schedule, t, n)
    decreases |out.lines| + |err.lines|
  {
    if FindsLine(out, err, schedule, t, 0) {
      var nextOut, nextErr := AfterTurn(out, schedule(t) == Stdout), AfterTurn(err, schedule(t) == Stderr);
      var rest := TurnsStop(nextOut, nextErr, schedule, t + 1);
      n := rest + 1;
      FindsLineLater(out, err, schedule, t, rest);
      forall m: nat | m < n ensures FindsLine(out, err, schedule, t, m) {
        if m > 0 {
          FindsLineLater(out, err, schedule, t, m - 1);
        }
      }
    } else {
      n := 0;
    }
  }
}
