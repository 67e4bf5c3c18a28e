/** The daemon's heartbeat tasks, garbage-collection flag and healer counter
    (daemon/src/daemon.rs), as step systems over every interleaving. */
module Heartbeat {
  import opened Prelude

  // ---- heartbeats ----------------------------------------------------------------

  /** Tasks are numbered by their trigger; a task carries the snapshot taken then. */
  type Task = nat

  datatype State = State(
    triggers: nat,
    spawned: set<Task>,
    posting: set<Task>,
    sendingInventory: set<Task>,
    lock: Option<Task>,
    pending: bool,
    succeeded: nat,
    failed: nat,
    coalesced: nat,
    posts: seq<Task>,
    inventories: seq<Task>)

  const INITIAL: State := State(0, {}, {}, {}, None, true, 0, 0, 0, [], [])

  datatype Step =
    | Trigger
    | Start(task: Task)
    | PostDone(task: Task, ok: bool)
    | InventoryDone(task: Task)

  predicate Enabled(s: State, step: Step) {
    match step
    case Trigger => true
    case Start(t) => t in s.spawned
    case PostDone(t, _) => t in s.posting
    case InventoryDone(t) => t in s.sendingInventory
  }

  function Next(s: State, step: Step): State {
    match step
    case Trigger =>
      s.(triggers := s.triggers + 1, spawned := s.spawned + {s.triggers})
    case Start(t) =>
      // try_lock: take the lock or drop this send, never wait
      if s.lock.None?
      then s.(spawned := s.spawned - {t}, posting := s.posting + {t}, lock := Some(t), posts := s.posts + [t])
      else s.(spawned := s.spawned - {t}, coalesced := s.coalesced + 1)
    case PostDone(t, ok) =>
      var counted := s.(posting := s.posting - {t},
                        succeeded := s.succeeded + (if ok then 1 else 0),
                        failed := s.failed + (if ok then 0 else 1));
      // pending.swap(false) after a success; the guard is held over the inventory
      if ok && s.pending
      then counted.(pending := false, sendingInventory := s.sendingInventory + {t}, inventories := s.inventories + [t])
      else counted.(lock := None)
    case InventoryDone(t) =>
      s.(sendingInventory := s.sendingInventory - {t}, lock := None)
  }

  /** The states after each step of a run, if every step was enabled. */
  predicate IsRun(s: State, steps: seq<Step>, end: State)
    decreases |steps|
  {
    if steps == [] then s == end
    else Enabled(s, steps[0]) && IsRun(Next(s, steps[0]), steps[1..], end)
  }

  function Holder(lock: Option<Task>): set<Task> {
    if lock.Some? then {lock.value} else {}
  }

  predicate Invariant(s: State) {
    && s.posting + s.sendingInventory == Holder(s.lock) && s.posting !! s.sendingInventory
    && (forall t :: t in s.spawned ==> t < s.triggers)
    && s.spawned !! Holder(s.lock)
    && s.triggers == |s.spawned| + |s.posting| + s.succeeded + s.failed + s.coalesced
    && |s.posts| == |s.posting| + s.succeeded + s.failed
    && |s.inventories| == (if s.succeeded == 0 then 0 else 1)
    && s.pending == (s.succeeded == 0)
    && (forall t :: t in s.posts ==> t < s.triggers)
    && (forall t :: t in s.inventories ==> t in s.posts)
    && (s.lock.Some? ==> s.lock.value in s.posts)
  }

  lemma TriggerKeepsInvariant(s: State)
    requires Invariant(s)
    ensures Invariant(Next(s, Trigger))
  {
  }

  lemma StartKeepsInvariant(s: State, t: Task)
    requires Invariant(s) && t in s.spawned
    ensures Invariant(Next(s, Start(t)))
  {
    assert |s.spawned - {t}| == |s.spawned| - 1;
    if s.lock.None? {
      assert s.posting == {} && s.sendingInventory == {};
    }
  }

  lemma PostDoneKeepsInvariant(s: State, t: Task, ok: bool)
    requires Invariant(s) && t in s.posting
    ensures Invariant(Next(s, PostDone(t, ok)))
  {
    assert s.lock == Some(t) && s.posting == {t} && s.sendingInventory == {};
  }

  lemma InventoryDoneKeepsInvariant(s: State, t: Task)
    requires Invariant(s) && t in s.sendingInventory
    ensures Invariant(Next(s, InventoryDone(t)))
  {
    assert s.lock == Some(t) && s.sendingInventory == {t} && s.posting == {};
  }

  lemma StepKeepsInvariant(s: State, step: Step)
    requires Invariant(s) && Enabled(s, step)
    ensures Invariant(Next(s, step))
  {
    match step
    case Trigger => TriggerKeepsInvariant(s);
    case Start(t) => StartKeepsInvariant(s, t);
    case PostDone(t, ok) => PostDoneKeepsInvariant(s, t, ok);
    case InventoryDone(t) => InventoryDoneKeepsInvariant(s, t);
  }

  lemma {:induction false} RunKeepsInvariant(s: State, steps: seq<Step>, end: State)
    requires Invariant(s) && IsRun(s, steps, end)
    ensures Invariant(end)
    decreases |steps|
  {
    if steps != [] {
      StepKeepsInvariant(s, steps[0]);
      RunKeepsInvariant(Next(s, steps[0]), steps[1..], end);
    }
  }

  /** In every interleaving: at most one POST is in flight, and none while the initial
      inventory is being sent; every trigger is accounted for exactly once; the
      inventory goes out once the first POST has succeeded, never before and never
      twice. */
  lemma EveryInterleavingIsSafe(steps: seq<Step>, s: State)
    requires IsRun(INITIAL, steps, s)
    ensures |s.posting| + |s.sendingInventory| <= 1
    ensures s.triggers == |s.spawned| + |s.posting| + s.succeeded + s.failed + s.coalesced
    ensures |s.inventories| == if s.succeeded > 0 then 1 else 0
    ensures forall t :: t in s.inventories ==> t in s.posts
  {
    RunKeepsInvariant(INITIAL, steps, s);
    assert |s.posting + s.sendingInventory| == |s.posting| + |s.sendingInventory|;
  }

  /** No started task ever waits: whatever the others do, a task that starts is at once
      posting or done, and it is dropped exactly when another task is on the wire. */
  lemma StartNeverWaits(steps: seq<Step>, s: State, t: Task)
    requires IsRun(INITIAL, steps, s) && t in s.spawned
    ensures var after := Next(s, Start(t));
            && Enabled(s, Start(t)) && t !in after.spawned
            && (t in after.posting <==> s.posting + s.sendingInventory == {})
            && (after.coalesced == s.coalesced + 1 <==> s.posting + s.sendingInventory != {})
  {
    RunKeepsInvariant(INITIAL, steps, s);
  }

  // ---- what a state says about the steps that led to it --------------------------------

  /** How many triggers, successful POSTs and failed POSTs a history holds. */
  function Triggers(history: seq<Step>): nat {
    if history == [] then 0
    else Triggers(Front(history)) + (if Last(history).Trigger? then 1 else 0)
  }

  function PostsDone(history: seq<Step>, ok: bool): nat {
    if history == [] then 0
    else PostsDone(Front(history), ok) + (if Last(history).PostDone? && Last(history).ok == ok then 1 else 0)
  }

  function Front(history: seq<Step>): seq<Step>
    requires history != []
  {
    history[..|history| - 1]
  }

  function Last(history: seq<Step>): Step
    requires history != []
  {
    history[|history| - 1]
  }

  /** What is on the wire. */
  datatype Wire = Idle | Post | Inventory

  /** A start on an idle wire posts; the first success goes on with the inventory, any
      other end of a POST and the end of the inventory free the wire. */
  function OnWire(history: seq<Step>): Wire {
    if history == [] then Idle
    else
      match Last(history)
      case Trigger => OnWire(Front(history))
      case Start(_) => if OnWire(Front(history)).Idle? then Post else OnWire(Front(history))
      case PostDone(_, ok) => if ok && PostsDone(Front(history), true) == 0 then Inventory else Idle
      case InventoryDone(_) => Idle
  }

  /** The starts that found the wire idle, or busy. */
  function Started(history: seq<Step>, idle: bool): seq<Task> {
    if history == [] then []
    else Started(Front(history), idle)
         + (if Last(history).Start? && OnWire(Front(history)).Idle? == idle then [Last(history).task] else [])
  }

  /** The task of the first successful POST. */
  function FirstSuccess(history: seq<Step>): seq<Task> {
    if history == [] then []
    else if FirstSuccess(Front(history)) == [] && Last(history).PostDone? && Last(history).ok then [Last(history).task]
    else FirstSuccess(Front(history))
  }

  ghost predicate Accounts(history: seq<Step>, s: State) {
    CountsAgree(history, s) && WaitersAgree(history, s)
  }

  lemma FrontAndLast(history: seq<Step>, step: Step)
    ensures Front(history + [step]) == history && Last(history + [step]) == step
  {
  }

  lemma FirstSuccessCounts(history: seq<Step>)
    ensures FirstSuccess(history) == [] <==> PostsDone(history, true) == 0
  {
  }

  /** The counts and the wire of a history that is one step longer. */
  lemma OneMore(history: seq<Step>, step: Step)
    ensures Triggers(history + [step]) == Triggers(history) + (if step.Trigger? then 1 else 0)
    ensures forall ok :: PostsDone(history + [step], ok) == PostsDone(history, ok) + (if step.PostDone? && step.ok == ok then 1 else 0)
    ensures forall idle :: Started(history + [step], idle) ==
                           Started(history, idle) + (if step.Start? && OnWire(history).Idle? == idle then [step.task] else [])
    ensures FirstSuccess(history + [step]) ==
            if PostsDone(history, true) == 0 && step.PostDone? && step.ok then [step.task] else FirstSuccess(history)
    ensures OnWire(history + [step]) ==
            match step
            case Trigger => OnWire(history)
            case Start(_) => if OnWire(history).Idle? then Post else OnWire(history)
            case PostDone(_, ok) => if ok && PostsDone(history, true) == 0 then Inventory else Idle
            case InventoryDone(_) => Idle
  {
    FrontAndLast(history, step);
    FirstSuccessCounts(history);
  }

  ghost predicate CountsAgree(history: seq<Step>, s: State) {
    && s.triggers == Triggers(history)
    && s.succeeded == PostsDone(history, true) && s.failed == PostsDone(history, false)
    && s.coalesced == |Started(history, false)| && s.posts == Started(history, true)
    && s.inventories == FirstSuccess(history)
    && (s.posting != {} <==> OnWire(history).Post?)
    && (s.sendingInventory != {} <==> OnWire(history).Inventory?)
  }

  /** The waiting tasks are the triggered ones that have not started. */
  ghost predicate WaitersAgree(history: seq<Step>, s: State) {
    && (forall t: Task :: t in s.spawned <==> t < s.triggers && Start(t) !in history)
    && (forall t: Task :: Start(t) in history ==> t < s.triggers)
  }

  lemma StepCounts(history: seq<Step>, s: State, step: Step)
    requires Invariant(s) && CountsAgree(history, s) && Enabled(s, step)
    ensures CountsAgree(history + [step], Next(s, step))
  {
    OneMore(history, step);
  }

  lemma StepWaiters(history: seq<Step>, s: State, step: Step)
    requires WaitersAgree(history, s) && Enabled(s, step)
    ensures WaitersAgree(history + [step], Next(s, step))
  {
    forall t: Task ensures Start(t) in history + [step] <==> Start(t) in history || step == Start(t) {
    }
  }

  lemma StepAccounts(history: seq<Step>, s: State, step: Step)
    requires Invariant(s) && Accounts(history, s) && Enabled(s, step)
    ensures Accounts(history + [step], Next(s, step))
  {
    StepCounts(history, s, step);
    StepWaiters(history, s, step);
  }

  lemma {:induction false} RunAccounts(history: seq<Step>, s: State, steps: seq<Step>, end: State)
    requires Invariant(s) && Accounts(history, s) && IsRun(s, steps, end)
    ensures Accounts(history + steps, end)
    decreases |steps|
  {
    if steps == [] {
      assert history + steps == history;
    } else {
      StepKeepsInvariant(s, steps[0]);
      StepAccounts(history, s, steps[0]);
      RunAccounts(history + [steps[0]], Next(s, steps[0]), steps[1..], end);
      assert history + [steps[0]] + steps[1..] == history + steps;
    }
  }

  /** In every interleaving the counters are what happened: triggers, successes and
      failures are the numbers of those steps; a start is posted exactly when it found
      nothing on the wire and dropped otherwise; the inventory is sent once, for the first
      successful POST; the tasks still waiting are the triggered ones that have not
      started. */
  lemma RunsAreAccounted(steps: seq<Step>, s: State)
    requires IsRun(INITIAL, steps, s)
    ensures Accounts(steps, s)
  {
    assert Accounts([], INITIAL);
    RunAccounts([], INITIAL, steps, s);
    assert [] + steps == steps;
  }

  // ---- freshness -------------------------------------------------------------------

  predicate Increasing(tasks: seq<Task>) {
    forall i, j :: 0 <= i < j < |tasks| ==> tasks[i] < tasks[j]
  }

  /** The tasks that find the lock free from here on, in that order. */
  function LaterPosts(s: State, steps: seq<Step>): seq<Task>
    decreases |steps|
  {
    if steps == [] then []
    else (if FindsLockFree(s, steps[0]) then [steps[0].task] else []) + LaterPosts(Next(s, steps[0]), steps[1..])
  }

  /** The step starts a task that gets to post. */
  predicate FindsLockFree(s: State, step: Step) {
    step.Start? && s.lock.None?
  }

  /** Task `t` is still waiting and will find the lock free at its own start. */
  predicate PostsLater(s: State, steps: seq<Step>, t: Task)
    decreases |steps|
  {
    steps != [] &&
    ((FindsLockFree(s, steps[0]) && steps[0].task == t) || PostsLater(Next(s, steps[0]), steps[1..], t))
  }

  /** No start that finds the lock free overtakes a waiting older task that later finds
      it free too. */
  predicate NoOvertaking(s: State, steps: seq<Step>)
    decreases |steps|
  {
    steps == [] ||
    (&& (FindsLockFree(s, steps[0]) ==>
           forall t :: t in s.spawned && t < steps[0].task ==> !PostsLater(Next(s, steps[0]), steps[1..], t))
     && NoOvertaking(Next(s, steps[0]), steps[1..]))
  }

  lemma {:induction false} PostsAreLater(s: State, steps: seq<Step>, end: State)
    requires IsRun(s, steps, end)
    ensures end.posts == s.posts + LaterPosts(s, steps)
    decreases |steps|
  {
    if steps == [] {
      assert s.posts + [] == s.posts;
    } else {
      PostsAreLater(Next(s, steps[0]), steps[1..], end);
    }
  }

  lemma {:induction false} LaterPostsMembers(s: State, steps: seq<Step>, t: Task)
    ensures t in LaterPosts(s, steps) <==> PostsLater(s, steps, t)
    decreases |steps|
  {
    if steps != [] {
      LaterPostsMembers(Next(s, steps[0]), steps[1..], t);
    }
  }

  lemma OnlyTriggersSpawn(s: State, step: Step, t: Task)
    requires t in Next(s, step).spawned || t >= Next(s, step).triggers
    ensures t in s.spawned || t >= s.triggers
  {
  }

  /** Whoever posts later is waiting now or not yet triggered. */
  lemma {:induction false} LaterPostsWait(s: State, steps: seq<Step>, end: State, t: Task)
    requires IsRun(s, steps, end) && PostsLater(s, steps, t)
    ensures t in s.spawned || t >= s.triggers
    decreases |steps|
  {
    if !(FindsLockFree(s, steps[0]) && steps[0].task == t) {
      LaterPostsWait(Next(s, steps[0]), steps[1..], end, t);
      OnlyTriggersSpawn(s, steps[0], t);
    }
  }

  lemma IncreasingTail(all: seq<Task>)
    requires all != [] && Increasing(all)
    ensures Increasing(all[1..]) && forall t :: t in all[1..] ==> all[0] < t
  {
  }

  lemma IncreasingCons(all: seq<Task>)
    requires all != [] && Increasing(all[1..]) && forall t :: t in all[1..] ==> all[0] < t
    ensures Increasing(all)
  {
    forall i, j | 0 <= i < j < |all| ensures all[i] < all[j] {
      assert all[j] == all[1..][j - 1] && all[1..][j - 1] in all[1..];
      if i > 0 {
        assert all[i] == all[1..][i - 1];
      }
    }
  }

  /** A task that gets to post comes before all later posters exactly when it overtakes
      nobody. */
  lemma FirstPostInOrder(s: State, steps: seq<Step>, end: State)
    requires Invariant(s) && IsRun(s, steps, end) && steps != [] && FindsLockFree(s, steps[0])
    ensures var t, next, rest := steps[0].task, Next(s, steps[0]), steps[1..];
            (forall u :: u in LaterPosts(next, rest) ==> t < u) <==>
            (forall u :: u in s.spawned && u < t ==> !PostsLater(next, rest, u))
  {
    var t, next, rest := steps[0].task, Next(s, steps[0]), steps[1..];
    forall u: Task
      ensures u in LaterPosts(next, rest) <==> PostsLater(next, rest, u)
      ensures PostsLater(next, rest, u) ==> u != t && (u < t ==> u in s.spawned)
    {
      LaterPostsMembers(next, rest, u);
      if PostsLater(next, rest, u) {
        LaterPostsWait(next, rest, end, u);
      }
    }
  }

  /** From any reachable state: the posts still to come are in trigger order exactly
      when nobody overtakes. */
  lemma {:induction false} LaterPostsInOrder(s: State, steps: seq<Step>, end: State)
    requires Invariant(s) && IsRun(s, steps, end)
    ensures Increasing(LaterPosts(s, steps)) <==> NoOvertaking(s, steps)
    decreases |steps|
  {
    if steps != [] {
      var next, rest, posts := Next(s, steps[0]), steps[1..], LaterPosts(s, steps);
      StepKeepsInvariant(s, steps[0]);
      LaterPostsInOrder(next, rest, end);
      if FindsLockFree(s, steps[0]) {
        FirstPostInOrder(s, steps, end);
        assert posts[0] == steps[0].task && posts[1..] == LaterPosts(next, rest);
        if Increasing(posts) {
          IncreasingTail(posts);
        } else if Increasing(posts[1..]) && forall u :: u in posts[1..] ==> posts[0] < u {
          IncreasingCons(posts);
        }
      } else {
        assert posts == LaterPosts(next, rest);
      }
    }
  }

  /** Snapshots reach the server in the order they were taken if and only if no start
      that finds the lock free overtakes an older waiting task that later finds it free. */
  lemma PostsInOrderIffNoOvertaking(steps: seq<Step>, s: State)
    requires IsRun(INITIAL, steps, s)
    ensures Increasing(s.posts) <==> NoOvertaking(INITIAL, steps)
  {
    PostsAreLater(INITIAL, steps, s);
    assert s.posts == LaterPosts(INITIAL, steps);
    LaterPostsInOrder(INITIAL, steps, s);
  }

  /** Every start takes the oldest waiting task. */
  predicate StartsInOrder(s: State, steps: seq<Step>)
    decreases |steps|
  {
    steps == [] ||
    (&& (steps[0].Start? ==> forall t :: t in s.spawned ==> steps[0].task <= t)
     && StartsInOrder(Next(s, steps[0]), steps[1..]))
  }

  lemma {:induction false} OrderedStartsDoNotOvertake(s: State, steps: seq<Step>)
    requires StartsInOrder(s, steps)
    ensures NoOvertaking(s, steps)
    decreases |steps|
  {
    if steps != [] {
      OrderedStartsDoNotOvertake(Next(s, steps[0]), steps[1..]);
    }
  }

  /** In particular, if tasks start in trigger order they post in that order. */
  lemma InOrderStartsPostInOrder(steps: seq<Step>, s: State)
    requires IsRun(INITIAL, steps, s) && StartsInOrder(INITIAL, steps)
    ensures Increasing(s.posts)
  {
    PostsInOrderIffNoOvertaking(steps, s);
    OrderedStartsDoNotOvertake(INITIAL, steps);
  }

  /** The lock alone does not give that: a task delayed before it contends posts an
      older snapshot after a newer one. */
  lemma DelayedTaskPostsStale()
    ensures exists steps, s :: IsRun(INITIAL, steps, s) && !Increasing(s.posts)
  {
    var s1 := Next(INITIAL, Trigger);
    var s2 := Next(s1, Trigger);
    var s3 := Next(s2, Start(1));
    var s4 := Next(s3, PostDone(1, false));
    var s5 := Next(s4, Start(0));
    assert s5.posts == [1, 0];
    var r5 := [Start(0)];
    var r4 := [PostDone(1, false)] + r5;
    var r3 := [Start(1)] + r4;
    var r2 := [Trigger] + r3;
    var r1 := [Trigger] + r2;
    assert r5[1..] == [] && r4[1..] == r5 && r3[1..] == r4 && r2[1..] == r3 && r1[1..] == r2;
    assert IsRun(s5, [], s5) && IsRun(s4, r5, s5) && IsRun(s3, r4, s5);
    assert IsRun(s2, r3, s5) && IsRun(s1, r2, s5) && IsRun(INITIAL, r1, s5);
    assert !Increasing(s5.posts) by {
      assert s5.posts[0] == 1 && s5.posts[1] == 0;
    }
  }

  // ---- nix garbage collection ----------------------------------------------------------

  /** `collecting` tasks run the collection; `finishing` ones are about to clear the flag. */
  datatype Gc = Gc(flag: bool, collecting: nat, finishing: nat)

  datatype GcStep = GcTick | HealthTick(pressure: bool) | Collected | Cleared

  predicate GcEnabled(g: Gc, step: GcStep) {
    match step
    case Collected => g.collecting > 0
    case Cleared => g.finishing > 0
    case _ => true
  }

  function GcNext(g: Gc, step: GcStep): Gc
    requires GcEnabled(g, step)
  {
    match step
    case GcTick => if g.flag then g else Gc(true, g.collecting + 1, g.finishing)
    case HealthTick(pressure) => if !g.flag && pressure then Gc(true, g.collecting + 1, g.finishing) else g
    case Collected => Gc(g.flag, g.collecting - 1, g.finishing + 1)
    case Cleared => Gc(false, g.collecting, g.finishing - 1)
  }

  predicate IsGcRun(g: Gc, steps: seq<GcStep>, end: Gc)
    decreases |steps|
  {
    if steps == [] then g == end
    else GcEnabled(g, steps[0]) && IsGcRun(GcNext(g, steps[0]), steps[1..], end)
  }

  /** Scheduled and pressure-triggered collections share one flag: at most one runs,
      and the flag is set exactly while one does. */
  lemma {:induction false} AtMostOneCollection(g: Gc, steps: seq<GcStep>, end: Gc)
    requires g.collecting + g.finishing == (if g.flag then 1 else 0) && IsGcRun(g, steps, end)
    ensures end.collecting + end.finishing == (if end.flag then 1 else 0)
    decreases |steps|
  {
    if steps != [] {
      AtMostOneCollection(GcNext(g, steps[0]), steps[1..], end);
    }
  }

  /** The collections a history of steps starts: one at every scheduled tick and at every
      tick under pressure that finds none running. */
  function GcStarted(history: seq<GcStep>): (n: nat)
    decreases |history|
  {
    if history == [] then 0
    else
      var before, last := history[..|history| - 1], history[|history| - 1];
      GcStarted(before) + (if WantsGc(last) && !GcRunning(before) then 1 else 0)
  }

  predicate WantsGc(step: GcStep) {
    step.GcTick? || (step.HealthTick? && step.pressure)
  }

  /** From the tick that starts a collection until its flag is cleared. */
  predicate GcRunning(history: seq<GcStep>)
    decreases |history|
  {
    history != [] &&
    (var before, last := history[..|history| - 1], history[|history| - 1];
     WantsGc(last) || (!last.Cleared? && GcRunning(before)))
  }

  function GcCleared(history: seq<GcStep>): nat {
    if history == [] then 0
    else GcCleared(history[..|history| - 1]) + (if history[|history| - 1].Cleared? then 1 else 0)
  }

  predicate GcAccounts(history: seq<GcStep>, g: Gc) {
    && g.flag == GcRunning(history)
    && g.collecting + g.finishing == (if g.flag then 1 else 0)
    && GcStarted(history) == GcCleared(history) + g.collecting + g.finishing
  }

  /** Every collection asked for while none runs is started, and every one that is started
      is running or has cleared the flag. */
  lemma {:induction false} CollectionsAreStarted(history: seq<GcStep>, g: Gc, steps: seq<GcStep>, end: Gc)
    requires GcAccounts(history, g) && IsGcRun(g, steps, end)
    ensures GcAccounts(history + steps, end)
    decreases |steps|
  {
    if steps == [] {
      assert history + steps == history;
    } else {
      var longer := history + [steps[0]];
      assert longer[..|longer| - 1] == history;
      CollectionsAreStarted(longer, GcNext(g, steps[0]), steps[1..], end);
      assert longer + steps[1..] == history + steps;
    }
  }

  // ---- the healer counter ------------------------------------------------------------------

  /** One health tick: is auto-trigger on, and is some service unhealthy? */
  datatype Tick = Tick(auto: bool, unhealthy: bool)

  const THRESHOLD: nat := 10

  /** Unhealthy ticks in a row up to tick `n`; ticks with auto-trigger off do not count
      either way. */
  function UnhealthyStreak(history: seq<Tick>, n: nat): nat
    requires n <= |history|
  {
    if n == 0 then 0
    else if !history[n - 1].auto then UnhealthyStreak(history, n - 1)
    else if history[n - 1].unhealthy then UnhealthyStreak(history, n - 1) + 1
    else 0
  }

  /** The ticks that count, those with auto-trigger on: was a service unhealthy? */
  function Counted(history: seq<Tick>, n: nat): seq<bool>
    requires n <= |history|
  {
    if n == 0 then [] else Counted(history, n - 1) + (if history[n - 1].auto then [history[n - 1].unhealthy] else [])
  }

  /** The streak is the run of unhealthy ticks at the end of those that count. */
  lemma {:induction false} StreakIsTrailing(history: seq<Tick>, n: nat)
    requires n <= |history|
    ensures var counted, streak := Counted(history, n), UnhealthyStreak(history, n);
            && streak <= |counted|
            && (forall i :: |counted| - streak <= i < |counted| ==> counted[i])
            && (streak < |counted| ==> !counted[|counted| - streak - 1])
    decreases n
  {
    if n > 0 {
      StreakIsTrailing(history, n - 1);
    }
  }

  /** The healer is due at tick `i`: auto-trigger is on and the unhealthy streak has just
      reached a positive multiple of ten. */
  predicate IsDue(history: seq<Tick>, i: nat)
    requires i < |history|
  {
    var streak := UnhealthyStreak(history, i + 1);
    history[i].auto && streak > 0 && streak % 10 == 0
  }

  /** `maybe_trigger_healer` over a history of ticks. */
  method HealerTicks(history: seq<Tick>) returns (fired: seq<bool>)
    ensures |fired| == |history|
    ensures forall i :: 0 <= i < |history| ==> fired[i] == IsDue(history, i)
  {
    fired := [];
    var counter := 0;
    var i := 0;
    while i < |history|
      invariant 0 <= i <= |history| && |fired| == i
      invariant counter == UnhealthyStreak(history, i) % THRESHOLD
      invariant forall j :: 0 <= j < i ==> fired[j] == IsDue(history, j)
    {
      var fire := false;
      if history[i].auto {
        if history[i].unhealthy {
          counter := counter + 1;
          if counter >= THRESHOLD {
            counter := 0;
            fire := true;
          }
        } else {
          counter := 0;
        }
      }
      fired := fired + [fire];
      i := i + 1;
    }
  }
}
