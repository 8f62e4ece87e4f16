/** The token-based task limiter: every interleaving of the client, the scheduling loop and the tasks. */
module TaskLimiter {

  datatype Outcome = Executed | Crashed | Canceled

  /** A spawned task: not polled yet, polled, then the three actions of `GuardInner::feedback` in turn. */
  datatype Stage =
    | Spawned
    | Running
    | Releasing(normal: bool)
    | Unregistering(normal: bool)
    | Counting(normal: bool)
    | Finished(outcome: Outcome)
    | Dropped

  type Tasks = map<nat, Stage>

  /** The scheduling loop, at the point before each action that other threads can see. */
  datatype Loop = AtTop | AtDequeue | AtAcquire | AtRecheck | AtRegister(id: nat)
      | AtDrain | Joining(ids: set<nat>) | Exited

  /** `shutdown` sets the flag, closes the token channel and closes the queue; `wait` only closes the queue. */
  datatype Client = Open | Flagged | TokensClosed | Closed

  datatype Stats = Stats(spawned: nat, executed: nat, crashed: nat, canceled: nat)

  datatype State = State(
    parallelism: nat, tokens: nat, client: Client, terminated: bool, loop: Loop, lastId: nat,
    queue: nat, submitted: nat, discarded: nat, tasks: Tasks, handles: set<nat>, stats: Stats)
  {
    predicate TokensAreClosed() { terminated && (client.TokensClosed? || client.Closed?) }
  }

  datatype Step =
    | Submit
    | Terminate
    | CloseTokens
    | CloseQueue
    | LoopActs
    | Start(id: nat)
    | Complete(id: nat)
    | Crash(id: nat)
    | Cancel(id: nat)
    | Release(id: nat)
    | Unregister(id: nat)
    | Count(id: nat)

  function Init(parallelism: nat): State {
    State(parallelism, parallelism, Open, false, AtTop, 0, 0, 0, 0, map[], {}, Stats(0, 0, 0, 0))
  }

  predicate Over(s: Stage) { s.Finished? || s.Dropped? }

  predicate At(s: State, id: nat, stage: Stage) { id in s.tasks && s.tasks[id] == stage }

  /** Blocking reads wait for a message or for the closed end of their channel. */
  predicate LoopEnabled(s: State) {
    match s.loop
    case AtDequeue => s.queue > 0 || s.client.Closed?
    case AtAcquire => s.tokens > 0 || s.TokensAreClosed()
    case Joining(ids) => forall id :: id in ids && id in s.tasks ==> Over(s.tasks[id])
    case Exited => false
    case _ => true
  }

  predicate Enabled(s: State, step: Step) {
    match step
    case Submit => s.client.Open?
    case Terminate => s.client.Open?
    case CloseTokens => s.client.Flagged?
    case CloseQueue => s.client.Open? || s.client.TokensClosed?
    case LoopActs => LoopEnabled(s)
    case Start(id) => At(s, id, Spawned)
    case Complete(id) => At(s, id, Running)
    case Crash(id) => At(s, id, Running)
    case Cancel(id) => s.terminated && s.loop.Joining? && id in s.loop.ids && (At(s, id, Spawned) || At(s, id, Running))
    case Release(id) => id in s.tasks && s.tasks[id].Releasing?
    case Unregister(id) => id in s.tasks && s.tasks[id].Unregistering?
    case Count(id) => id in s.tasks && s.tasks[id].Counting?
  }

  /** The bounded channel refuses a token when it is full, closed, or without its receiver, which ends with the loop. */
  predicate SendSucceeds(s: State) { !s.TokensAreClosed() && !s.loop.Exited? && s.tokens < s.parallelism }

  function LoopStep(s: State): State
    requires LoopEnabled(s)
  {
    match s.loop
    case AtTop => s.(loop := if s.terminated then AtDrain else AtDequeue)
    case AtDequeue => if s.queue > 0 then s.(loop := AtAcquire, queue := s.queue - 1) else s.(loop := AtDrain)
    case AtAcquire =>
      if s.tokens > 0 then s.(loop := AtRecheck, tokens := s.tokens - 1)
      else s.(loop := AtDrain, discarded := s.discarded + 1)
    case AtRecheck =>
      if s.terminated then s.(loop := AtDrain, discarded := s.discarded + 1)
      else s.(loop := AtRegister(s.lastId + 1), lastId := s.lastId + 1, tasks := s.tasks[s.lastId + 1 := Spawned])
    case AtRegister(id) => s.(loop := AtTop, handles := s.handles + {id})
    case AtDrain => s.(loop := Joining(s.handles), handles := {})
    case Joining(_) => s.(loop := Exited)
    case Exited => s
  }

  function Move(s: State, id: nat, stage: Stage): State { s.(tasks := s.tasks[id := stage]) }

  function Record(stats: Stats, o: Outcome): Stats {
    match o
    case Executed => stats.(executed := stats.executed + 1)
    case Crashed => stats.(crashed := stats.crashed + 1)
    case Canceled => stats.(canceled := stats.canceled + 1)
  }

  function Take(s: State, step: Step): State
    requires Enabled(s, step)
  {
    match step
    case Submit => s.(queue := s.queue + 1, submitted := s.submitted + 1)
    case Terminate => s.(client := Flagged, terminated := true)
    case CloseTokens => s.(client := TokensClosed)
    case CloseQueue => s.(client := Closed)
    case LoopActs => LoopStep(s)
    case Start(id) => Move(s, id, Running).(stats := s.stats.(spawned := s.stats.spawned + 1))
    case Complete(id) => Move(s, id, Releasing(true))
    case Crash(id) => Move(s, id, Releasing(false))
    case Cancel(id) => Move(s, id, if s.tasks[id].Spawned? then Dropped else Releasing(false))
    case Release(id) =>
      Move(s, id, Unregistering(s.tasks[id].normal)).(tokens := if SendSucceeds(s) then s.tokens + 1 else s.tokens)
    case Unregister(id) => Move(s, id, Counting(s.tasks[id].normal)).(handles := s.handles - {id})
    case Count(id) =>
      var o := if s.tasks[id].normal then Executed else if s.terminated then Canceled else Crashed;
      Move(s, id, Finished(o)).(stats := Record(s.stats, o))
  }

  // Counting tasks by stage

  function Those(tasks: Tasks, p: Stage -> bool): set<nat> {
    set id | id in tasks && p(tasks[id])
  }

  predicate HoldsToken(s: Stage) { s.Spawned? || s.Running? || s.Releasing? }

  predicate Started(s: Stage) { !s.Spawned? && !s.Dropped? }

  predicate InFlight(s: Stage) { s.Running? || s.Releasing? || s.Unregistering? || s.Counting? }

  predicate WasExecuted(s: Stage) { s == Finished(Executed) }

  predicate WasCrashed(s: Stage) { s == Finished(Crashed) }

  predicate WasCanceled(s: Stage) { s == Finished(Canceled) }

  function Num(tasks: Tasks, p: Stage -> bool): nat { |Those(tasks, p)| }

  function One(b: bool): nat { if b then 1 else 0 }

  ghost predicate Shifts(tasks: Tasks, id: nat, stage: Stage, p: Stage -> bool) {
    Num(tasks[id := stage], p) + One(id in tasks && p(tasks[id])) == Num(tasks, p) + One(p(stage))
  }

  lemma Without(a: set<nat>, x: nat)
    ensures |a| == |a - {x}| + One(x in a)
  {
    if x !in a { assert a - {x} == a; }
  }

  lemma ThoseMoved(tasks: Tasks, id: nat, stage: Stage, p: Stage -> bool)
    ensures Those(tasks, p) - {id} == Those(tasks[id := stage], p) - {id}
    ensures id in Those(tasks, p) <==> id in tasks && p(tasks[id])
    ensures id in Those(tasks[id := stage], p) <==> p(stage)
  {
    forall x ensures x in Those(tasks, p) - {id} <==> x in Those(tasks[id := stage], p) - {id} {
    }
  }

  lemma Moved(tasks: Tasks, id: nat, stage: Stage, p: Stage -> bool)
    ensures Shifts(tasks, id, stage, p)
  {
    hide Those;
    ThoseMoved(tasks, id, stage, p);
    Without(Those(tasks, p), id);
    Without(Those(tasks[id := stage], p), id);
  }

  lemma AllMoved(tasks: Tasks, id: nat, stage: Stage)
    ensures Shifts(tasks, id, stage, HoldsToken) && Shifts(tasks, id, stage, Started)
    ensures Shifts(tasks, id, stage, WasExecuted) && Shifts(tasks, id, stage, WasCrashed)
    ensures Shifts(tasks, id, stage, WasCanceled)
  {
    Moved(tasks, id, stage, HoldsToken);
    Moved(tasks, id, stage, Started);
    Moved(tasks, id, stage, WasExecuted);
    Moved(tasks, id, stage, WasCrashed);
    Moved(tasks, id, stage, WasCanceled);
  }

  function LoopToken(loop: Loop): nat { One(loop.AtRecheck?) }

  function LoopFuture(loop: Loop): nat { One(loop.AtAcquire? || loop.AtRecheck?) }

  /** Every token is in the channel, with the loop, or with a task; only a terminated limiter may lose some. */
  ghost predicate TokensKept(s: State) {
    var all := s.tokens + LoopToken(s.loop) + Num(s.tasks, HoldsToken);
    all <= s.parallelism && (!s.terminated ==> all == s.parallelism)
  }

  /** The counters count the tasks that passed the corresponding point. */
  ghost predicate StatsExact(s: State) {
    && s.stats.spawned == Num(s.tasks, Started)
    && s.stats.executed == Num(s.tasks, WasExecuted)
    && s.stats.crashed == Num(s.tasks, WasCrashed)
    && s.stats.canceled == Num(s.tasks, WasCanceled)
  }

  /** Every submitted future is queued, with the loop, a task, or discarded after termination. */
  ghost predicate FuturesKept(s: State) {
    && s.submitted == s.queue + LoopFuture(s.loop) + |s.tasks| + s.discarded
    && (forall id :: id in s.tasks ==> 0 < id <= s.lastId)
    && (s.discarded > 0 ==> s.terminated)
  }

  /** Without termination nothing is canceled or dropped, and the loop ends only on an empty closed queue. */
  ghost predicate Orderly(s: State) {
    && (s.client.Flagged? || s.client.TokensClosed? ==> s.terminated)
    && (!s.terminated ==>
          && (forall id :: id in s.tasks ==> s.tasks[id] != Dropped && s.tasks[id] != Finished(Canceled))
          && (s.loop.AtDrain? || s.loop.Joining? || s.loop.Exited? ==> s.client.Closed? && s.queue == 0))
  }

  ghost predicate Counted(s: State) {
    TokensKept(s) && StatsExact(s) && FuturesKept(s) && Orderly(s)
  }

  /** A task that has yet to take its handle out of the map. */
  predicate Early(s: Stage) { s.Spawned? || s.Running? || s.Releasing? || s.Unregistering? }

  /** Such a task's handle is in the map, on its way there, or being joined; from the join on the map is empty. */
  ghost predicate Tracked(s: State) {
    && (forall id :: id in s.tasks && Early(s.tasks[id]) ==>
          id in s.handles || s.loop == AtRegister(id) || (s.loop.Joining? && id in s.loop.ids))
    && (s.loop.Joining? || s.loop.Exited? ==> s.handles == {})
  }

  ghost predicate Inv(s: State) {
    Counted(s) && Tracked(s)
  }

  lemma LoopKeepsCounts(s: State)
    requires Counted(s) && LoopEnabled(s) && !s.loop.AtRecheck?
    ensures Counted(LoopStep(s))
  {
    hide Num;
  }

  lemma SpawnCounted(s: State, t: State, id: nat)
    requires TokensKept(s) && StatsExact(s) && s.loop.AtRecheck? && t.loop.AtRegister?
    requires id !in s.tasks && t.tasks == s.tasks[id := Spawned] && t.stats == s.stats && t.tokens == s.tokens
    requires t.parallelism == s.parallelism && t.terminated == s.terminated
    ensures TokensKept(t) && StatsExact(t)
  {
    hide Num;
    AllMoved(s.tasks, id, Spawned);
  }

  lemma SpawnKeepsCounts(s: State)
    requires Counted(s) && s.loop.AtRecheck?
    ensures Counted(LoopStep(s))
  {
    hide Num, Those;
    var id, t := s.lastId + 1, LoopStep(s);
    assert id !in s.tasks;
    if !s.terminated {
      assert t.tasks == s.tasks[id := Spawned];
      SpawnCounted(s, t, id);
      assert |t.tasks| == |s.tasks| + 1;
    }
  }

  lemma LoopStaysTracked(s: State)
    requires Tracked(s) && LoopEnabled(s)
    ensures Tracked(LoopStep(s))
  {
  }

  lemma LoopKeeps(s: State)
    requires Inv(s) && LoopEnabled(s)
    ensures Inv(LoopStep(s))
  {
    hide Counted, Tracked, LoopStep, LoopEnabled;
    if s.loop.AtRecheck? { SpawnKeepsCounts(s); } else { LoopKeepsCounts(s); }
    LoopStaysTracked(s);
  }

  /** A task step moves one task; what it does to tokens and counters must match the move. */
  lemma TaskMoves(s: State, id: nat, stage: Stage, tokens: nat, stats: Stats, handles: set<nat>)
    requires Counted(s) && id in s.tasks
    requires stage == Dropped || stage == Finished(Canceled) ==> s.terminated
    requires var was := s.tasks[id];
             && tokens + One(HoldsToken(stage)) <= s.tokens + One(HoldsToken(was))
             && (!s.terminated ==> tokens + One(HoldsToken(stage)) == s.tokens + One(HoldsToken(was)))
             && stats.spawned + One(Started(was)) == s.stats.spawned + One(Started(stage))
             && stats.executed + One(WasExecuted(was)) == s.stats.executed + One(WasExecuted(stage))
             && stats.crashed + One(WasCrashed(was)) == s.stats.crashed + One(WasCrashed(stage))
             && stats.canceled + One(WasCanceled(was)) == s.stats.canceled + One(WasCanceled(stage))
    ensures Counted(Move(s, id, stage).(tokens := tokens, stats := stats, handles := handles))
  {
    AllMoved(s.tasks, id, stage);
    hide Num, HoldsToken, Started;
    assert s.tasks[id := stage].Keys == s.tasks.Keys;
  }

  predicate OfClient(step: Step) {
    step.Submit? || step.Terminate? || step.CloseTokens? || step.CloseQueue?
  }

  lemma ClientKeeps(s: State, step: Step)
    requires Inv(s) && Enabled(s, step) && OfClient(step)
    ensures Inv(Take(s, step))
  {
    hide Num;
    assert Counted(Take(s, step));
  }

  lemma StepKeeps(s: State, step: Step)
    requires Inv(s) && Enabled(s, step)
    ensures Inv(Take(s, step))
  {
    if OfClient(step) {
      ClientKeeps(s, step);
    } else if step.LoopActs? {
      LoopKeeps(s);
    } else {
      TaskKeeps(s, step, step.id);
    }
  }

  lemma TaskKeeps(s: State, step: Step, id: nat)
    requires Inv(s) && Enabled(s, step) && id in s.tasks
    requires step in {Start(id), Complete(id), Crash(id), Cancel(id), Release(id), Unregister(id), Count(id)}
    ensures Inv(Take(s, step))
  {
    hide Counted, Tracked;
    if step.Release? { ReleaseSucceeds(s, id); }
    TaskStaysTracked(s, step, id);
    var t := Take(s, step);
    TaskMoves(s, id, t.tasks[id], t.tokens, t.stats, t.handles);
    assert t == Move(s, id, t.tasks[id]).(tokens := t.tokens, stats := t.stats, handles := t.handles);
  }

  lemma TaskStaysTracked(s: State, step: Step, id: nat)
    requires Tracked(s) && Enabled(s, step) && id in s.tasks
    requires step in {Start(id), Complete(id), Crash(id), Cancel(id), Release(id), Unregister(id), Count(id)}
    ensures Tracked(Take(s, step))
  {
    hide SendSucceeds;
  }

  lemma ReleaseSucceeds(s: State, id: nat)
    requires Inv(s) && Enabled(s, Release(id))
    ensures !s.loop.Exited? && (!s.terminated ==> SendSucceeds(s))
  {
    assert id in Those(s.tasks, HoldsToken);
    assert Early(s.tasks[id]);
  }

  predicate Executable(s: State, steps: seq<Step>)
    decreases |steps|
  {
    steps == [] || (Enabled(s, steps[0]) && Executable(Take(s, steps[0]), steps[1..]))
  }

  function Final(s: State, steps: seq<Step>): State
    requires Executable(s, steps)
    decreases |steps|
  {
    if steps == [] then s else Final(Take(s, steps[0]), steps[1..])
  }

  lemma {:induction false} RunKeeps(s: State, steps: seq<Step>)
    requires Inv(s) && Executable(s, steps)
    ensures Inv(Final(s, steps)) && Final(s, steps).parallelism == s.parallelism
    decreases |steps|
  {
    if steps != [] {
      StepKeeps(s, steps[0]);
      RunKeeps(Take(s, steps[0]), steps[1..]);
    }
  }

  lemma InitHolds(parallelism: nat)
    ensures Inv(Init(parallelism))
  {
    var none: Tasks := map[];
    assert forall p :: Those(none, p) == {};
  }

  /**
   * In every run the tokens are conserved until termination and never exceed `parallelism`; so neither do
   * running tasks.
   */
  lemma TokenConservation(parallelism: nat, steps: seq<Step>)
    requires Executable(Init(parallelism), steps)
    ensures var s := Final(Init(parallelism), steps);
            var all := s.tokens + LoopToken(s.loop) + Num(s.tasks, HoldsToken);
            all <= parallelism && (!s.terminated ==> all == parallelism)
            && Num(s.tasks, (t: Stage) => t.Running?) <= parallelism
  {
    InitHolds(parallelism);
    RunKeeps(Init(parallelism), steps);
    var s := Final(Init(parallelism), steps);
    var running := Those(s.tasks, (t: Stage) => t.Running?);
    Subset(running, Those(s.tasks, HoldsToken));
  }

  lemma {:induction false} Subset(a: set<nat>, b: set<nat>)
    requires a <= b
    ensures |a| <= |b|
  {
    if a != {} {
      var x :| x in a;
      Subset(a - {x}, b - {x});
    }
  }

  /** A task that gives its token back finds the loop running, and before termination always succeeds. */
  lemma ReleaseNeverLosesToken(parallelism: nat, steps: seq<Step>, id: nat)
    requires Executable(Init(parallelism), steps) && Enabled(Final(Init(parallelism), steps), Release(id))
    ensures var s := Final(Init(parallelism), steps);
            !s.loop.Exited? && (!s.terminated ==> SendSucceeds(s))
  {
    InitHolds(parallelism);
    RunKeeps(Init(parallelism), steps);
    ReleaseSucceeds(Final(Init(parallelism), steps), id);
  }

  /** A loop that waits for a token while none is left is never stuck: some task still has one to give back. */
  lemma SomeTaskHoldsToken(parallelism: nat, steps: seq<Step>)
    requires parallelism > 0 && Executable(Init(parallelism), steps)
    requires var s := Final(Init(parallelism), steps); s.loop.AtAcquire? && !Enabled(s, LoopActs) && !s.terminated
    ensures var s := Final(Init(parallelism), steps); exists id :: id in s.tasks && HoldsToken(s.tasks[id])
  {
    InitHolds(parallelism);
    RunKeeps(Init(parallelism), steps);
    var s := Final(Init(parallelism), steps);
    assert Num(s.tasks, HoldsToken) > 0;
    var id :| id in Those(s.tasks, HoldsToken);
  }

  // How a task ended, told by the steps

  /** The future ran to its end. */
  predicate EndedNormally(s: State, id: nat) {
    id in s.tasks &&
    match s.tasks[id]
    case Releasing(normal) => normal
    case Unregistering(normal) => normal
    case Counting(normal) => normal
    case Finished(o) => o == Executed
    case _ => false
  }

  /** It panicked or was canceled. */
  predicate EndedAbnormally(s: State, id: nat) {
    id in s.tasks &&
    match s.tasks[id]
    case Releasing(normal) => !normal
    case Unregistering(normal) => !normal
    case Counting(normal) => !normal
    case Finished(o) => o == Crashed || o == Canceled
    case _ => false
  }

  predicate CancelsRunning(s: State, step: Step, id: nat) {
    step == Cancel(id) && At(s, id, Running)
  }

  lemma StepEnds(s: State, step: Step, id: nat)
    requires Inv(s) && Enabled(s, step)
    ensures EndedNormally(Take(s, step), id) <==> EndedNormally(s, id) || step == Complete(id)
    ensures EndedAbnormally(Take(s, step), id) <==>
            EndedAbnormally(s, id) || step == Crash(id) || CancelsRunning(s, step, id)
  {
    hide TokensKept, StatsExact, Orderly, Tracked;
    if step.LoopActs? && s.loop.AtRecheck? { assert s.lastId + 1 !in s.tasks; }
  }

  /** Some step of the run cancels the task while it runs. */
  predicate CanceledRunning(s: State, steps: seq<Step>, id: nat)
    requires Executable(s, steps)
    decreases |steps|
  {
    steps != [] && (CancelsRunning(s, steps[0], id) || CanceledRunning(Take(s, steps[0]), steps[1..], id))
  }

  lemma {:induction false} RunEnds(s: State, steps: seq<Step>, id: nat)
    requires Inv(s) && Executable(s, steps)
    ensures EndedNormally(Final(s, steps), id) <==> EndedNormally(s, id) || Complete(id) in steps
    ensures EndedAbnormally(Final(s, steps), id) <==>
            EndedAbnormally(s, id) || Crash(id) in steps || CanceledRunning(s, steps, id)
    decreases |steps|
  {
    hide Inv, Take, Enabled, EndedNormally, EndedAbnormally, CancelsRunning;
    if steps != [] {
      StepEnds(s, steps[0], id);
      StepKeeps(s, steps[0]);
      RunEnds(Take(s, steps[0]), steps[1..], id);
      assert steps == [steps[0]] + steps[1..];
    }
  }

  /**
   * In every run: a task recorded as executed has completed, and one recorded as crashed or canceled has panicked or
   * was canceled while it ran, and neither the other way round.
   */
  lemma OutcomeTellsTheRun(parallelism: nat, steps: seq<Step>, id: nat)
    requires Executable(Init(parallelism), steps)
    requires var s := Final(Init(parallelism), steps); id in s.tasks && s.tasks[id].Finished?
    ensures var s := Final(Init(parallelism), steps);
            && (s.tasks[id].outcome == Executed <==> Complete(id) in steps)
            && (s.tasks[id].outcome != Executed <==>
                  Crash(id) in steps || CanceledRunning(Init(parallelism), steps, id))
  {
    InitHolds(parallelism);
    hide Executable, Final, Inv;
    RunEnds(Init(parallelism), steps, id);
  }

  /**
   * In every run, when a task counts itself: executed goes up if it completed, else canceled if the limiter was
   * terminated by then, else crashed; the other counters stay.
   */
  lemma CountedAsItEnded(parallelism: nat, steps: seq<Step>, id: nat)
    requires Executable(Init(parallelism), steps) && Enabled(Final(Init(parallelism), steps), Count(id))
    ensures var s := Final(Init(parallelism), steps);
            var t := Take(s, Count(id));
            if Complete(id) in steps then
              t.tasks[id] == Finished(Executed) && t.stats == s.stats.(executed := s.stats.executed + 1)
            else if s.terminated then
              t.tasks[id] == Finished(Canceled) && t.stats == s.stats.(canceled := s.stats.canceled + 1)
            else
              t.tasks[id] == Finished(Crashed) && t.stats == s.stats.(crashed := s.stats.crashed + 1)
  {
    InitHolds(parallelism);
    hide Executable, Final, Inv;
    RunEnds(Init(parallelism), steps, id);
  }

  /** Neither the loop nor any task can take a step. */
  ghost predicate Stuck(s: State) {
    forall step: Step :: OfClient(step) || !Enabled(s, step)
  }

  lemma StuckTask(s: State, id: nat)
    requires Stuck(s) && id in s.tasks
    ensures Over(s.tasks[id])
  {
    assert !Enabled(s, Start(id)) && !Enabled(s, Complete(id)) && !Enabled(s, Release(id));
    assert !Enabled(s, Unregister(id)) && !Enabled(s, Count(id));
  }

  /** After `wait` or `shutdown` a schedule stops at the end and nowhere else: the loop exited, every task over. */
  lemma OnlyTheEndIsStuck(parallelism: nat, steps: seq<Step>)
    requires parallelism > 0 && Executable(Init(parallelism), steps) && Final(Init(parallelism), steps).client.Closed?
    ensures var s := Final(Init(parallelism), steps);
            Stuck(s) <==> s.loop.Exited? && forall id :: id in s.tasks ==> Over(s.tasks[id])
  {
    hide Executable, Final;
    var s := Final(Init(parallelism), steps);
    if Stuck(s) {
      assert !Enabled(s, LoopActs);
      forall id | id in s.tasks ensures Over(s.tasks[id]) {
        StuckTask(s, id);
      }
      if s.loop.AtAcquire? && !s.terminated {
        SomeTaskHoldsToken(parallelism, steps);
      }
    }
  }

  // Shutting down

  predicate Shut(s: State) { s.terminated && !s.client.Open? }

  lemma ShutStep(s: State, step: Step)
    requires Shut(s) && Enabled(s, step)
    ensures var t := Take(s, step);
            && Shut(t) && t.tasks.Keys == s.tasks.Keys
            && t.queue + One(s.loop.AtDequeue?) >= s.queue + One(t.loop.AtDequeue?)
  {
    hide Record;
    if !OfClient(step) && !step.LoopActs? { assert step.id in s.tasks; }
  }

  lemma {:induction false} ShutRun(s: State, steps: seq<Step>)
    requires Shut(s) && Executable(s, steps)
    ensures var t := Final(s, steps);
            t.tasks.Keys == s.tasks.Keys && t.queue + One(s.loop.AtDequeue?) >= s.queue + One(t.loop.AtDequeue?)
    decreases |steps|
  {
    hide Shut, Take, Enabled;
    if steps != [] {
      ShutStep(s, steps[0]);
      ShutRun(Take(s, steps[0]), steps[1..]);
    }
  }

  lemma {:induction false} ClientRun(s: State, steps: seq<Step>)
    requires Executable(s, steps)
    ensures Final(s, steps).terminated <==> s.terminated || Terminate in steps
    ensures Final(s, steps).client.Closed? <==> s.client.Closed? || CloseQueue in steps
    decreases |steps|
  {
    if steps != [] {
      ClientRun(Take(s, steps[0]), steps[1..]);
      assert steps == [steps[0]] + steps[1..];
    }
  }

  /**
   * In every run, whatever follows the flag that `shutdown` sets: no task is made any more, and of the queue the loop
   * takes at most the one future it may already have been about to take.
   */
  lemma NoneMadeAfterShutdown(parallelism: nat, steps: seq<Step>, later: seq<Step>)
    requires Executable(Init(parallelism), steps) && Executable(Final(Init(parallelism), steps), later)
    requires Terminate in steps
    ensures var s := Final(Init(parallelism), steps);
            var t := Final(s, later);
            t.tasks.Keys == s.tasks.Keys && s.queue <= t.queue + One(s.loop.AtDequeue?)
  {
    hide Executable, Final;
    var s := Final(Init(parallelism), steps);
    ClientRun(Init(parallelism), steps);
    StaysShut(Init(parallelism), steps);
    ShutRun(s, later);
  }

  /** In every run a client that has set the flag can go on to close both channels, the token channel first. */
  lemma ShutdownCloses(parallelism: nat, steps: seq<Step>)
    requires Executable(Init(parallelism), steps) && Final(Init(parallelism), steps).client.Flagged?
    ensures var s := Final(Init(parallelism), steps);
            && !s.TokensAreClosed() && !Enabled(s, CloseQueue)
            && Enabled(s, CloseTokens) && Take(s, CloseTokens).TokensAreClosed()
            && Enabled(Take(s, CloseTokens), CloseQueue) && Take(Take(s, CloseTokens), CloseQueue).client.Closed?
  {
    InitHolds(parallelism);
    RunKeeps(Init(parallelism), steps);
    hide Executable, Final, Tracked;
  }

  lemma {:induction false} StaysShut(s: State, steps: seq<Step>)
    requires Executable(s, steps) && (s.terminated ==> Shut(s))
    ensures Final(s, steps).terminated ==> Shut(Final(s, steps))
    decreases |steps|
  {
    if steps != [] { StaysShut(Take(s, steps[0]), steps[1..]); }
  }

  /**
   * In every run with a shutdown, once the loop joins: every task that has not ended can be canceled, which drops it
   * uncounted if it never ran, and otherwise ends it abnormally.  Without a shutdown none can be.
   */
  lemma ShutdownCancels(parallelism: nat, steps: seq<Step>, id: nat)
    requires Executable(Init(parallelism), steps)
    requires var s := Final(Init(parallelism), steps); id in s.tasks && s.loop.Joining?
    ensures var s := Final(Init(parallelism), steps);
            && (Enabled(s, Cancel(id)) <==> Terminate in steps && (s.tasks[id].Spawned? || s.tasks[id].Running?))
            && (Enabled(s, Cancel(id)) ==>
                  Take(s, Cancel(id)) == s.(tasks := s.tasks[id := if s.tasks[id].Spawned? then Dropped
                                                                   else Releasing(false)]))
  {
    InitHolds(parallelism);
    RunKeeps(Init(parallelism), steps);
    ClientRun(Init(parallelism), steps);
    hide Executable, Final, Counted;
  }

  lemma Partition(tasks: Tasks)
    ensures Num(tasks, Started) ==
            Num(tasks, WasExecuted) + Num(tasks, WasCrashed) + Num(tasks, WasCanceled) + Num(tasks, InFlight)
  {
    var e, c := Those(tasks, WasExecuted), Those(tasks, WasCrashed);
    var x, f := Those(tasks, WasCanceled), Those(tasks, InFlight);
    forall id | id in Those(tasks, Started) ensures id in e + c + x + f {
      match tasks[id]
      case Finished(Executed) => assert WasExecuted(tasks[id]);
      case Finished(Crashed) => assert WasCrashed(tasks[id]);
      case Finished(Canceled) => assert WasCanceled(tasks[id]);
      case _ =>
    }
    assert Those(tasks, Started) == e + c + x + f;
    assert e !! c && e + c !! x && e + c + x !! f;
    Union(e, c);
    Union(e + c, x);
    Union(e + c + x, f);
  }

  lemma Union(a: set<nat>, b: set<nat>)
    requires a !! b
    ensures |a + b| == |a| + |b|
  {
  }

  /** In every run each started task is in flight or recorded under exactly one outcome. */
  lemma EachStartedTaskIsRecordedOnce(parallelism: nat, steps: seq<Step>)
    requires Executable(Init(parallelism), steps)
    ensures var s := Final(Init(parallelism), steps);
            && s.stats.spawned == s.stats.executed + s.stats.crashed + s.stats.canceled + Num(s.tasks, InFlight)
            && (s.stats.canceled > 0 ==> s.terminated)
  {
    InitHolds(parallelism);
    RunKeeps(Init(parallelism), steps);
    var s := Final(Init(parallelism), steps);
    Partition(s.tasks);
    if s.stats.canceled > 0 {
      var id :| id in Those(s.tasks, WasCanceled);
    }
  }

  /** Joining is early: a task that has taken its own handle out, but not counted itself yet, is not waited for. */
  lemma OnlyCountingOutlivesLoop(s: State, id: nat)
    requires Inv(s) && s.loop.Exited? && id in s.tasks
    ensures s.tasks[id].Counting? || s.tasks[id].Finished? || (s.tasks[id].Dropped? && s.terminated)
  {
  }

  /**
   * After `wait`, in every run: once the loop has exited every submitted future was started and every token is back.
   * The counters that it returns account for all of them if and only if no task is still about to count itself.
   */
  lemma WaitRunsEverything(parallelism: nat, steps: seq<Step>)
    requires Executable(Init(parallelism), steps)
    requires var s := Final(Init(parallelism), steps); !s.terminated && s.loop.Exited?
    ensures var s := Final(Init(parallelism), steps);
            && (forall id :: id in s.tasks ==> s.tasks[id].Counting? || s.tasks[id].Finished?)
            && s.submitted == s.stats.spawned && s.stats.canceled == 0 && s.tokens == parallelism
            && (s.submitted == s.stats.executed + s.stats.crashed <==>
                  forall id :: id in s.tasks ==> !s.tasks[id].Counting?)
  {
    InitHolds(parallelism);
    RunKeeps(Init(parallelism), steps);
    EachStartedTaskIsRecordedOnce(parallelism, steps);
    var s := Final(Init(parallelism), steps);
    forall id | id in s.tasks ensures s.tasks[id].Counting? || s.tasks[id].Finished? {
      OnlyCountingOutlivesLoop(s, id);
    }
    assert Those(s.tasks, HoldsToken) == {};
    assert Those(s.tasks, Started) == s.tasks.Keys;
    if id :| id in s.tasks && s.tasks[id].Counting? {
      assert id in Those(s.tasks, InFlight);
    } else {
      assert Those(s.tasks, InFlight) == {};
    }
  }

  lemma {:induction false} Extends(s: State, steps: seq<Step>, step: Step)
    requires Executable(s, steps) && Enabled(Final(s, steps), step)
    ensures Executable(s, steps + [step]) && Final(s, steps + [step]) == Take(Final(s, steps), step)
    decreases |steps|
  {
    if steps == [] {
      assert steps + [step] == [step];
    } else {
      Extends(Take(s, steps[0]), steps[1..], step);
      assert (steps + [step])[1..] == steps[1..] + [step];
    }
  }

  lemma Next(steps: seq<Step>, step: Step) returns (longer: seq<Step>)
    requires Executable(Init(1), steps) && Enabled(Final(Init(1), steps), step)
    ensures Executable(Init(1), longer) && Final(Init(1), longer) == Take(Final(Init(1), steps), step)
  {
    Extends(Init(1), steps, step);
    longer := steps + [step];
  }

  lemma NoStep()
    ensures Executable(Init(1), []) && Final(Init(1), []) == Init(1)
  {
  }

  /** A run to the one spawned and registered task. */
  lemma OneTask() returns (run: seq<Step>)
    ensures Executable(Init(1), run)
    ensures Final(Init(1), run) ==
            Init(1).(tokens := 0, lastId := 1, submitted := 1, tasks := map[1 := Spawned], handles := {1})
  {
    hide Executable, Final;
    NoStep();
    run := Next([], Submit);
    run := Next(run, LoopActs);
    run := Next(run, LoopActs);
    run := Next(run, LoopActs);
    run := Next(run, LoopActs);
    run := Next(run, LoopActs);
  }

  /** The task has run, given its token back and taken its handle out. */
  lemma OneTaskAboutToCount() returns (run: seq<Step>)
    ensures Executable(Init(1), run)
    ensures Final(Init(1), run) ==
            Init(1).(lastId := 1, submitted := 1, tasks := map[1 := Counting(true)], stats := Stats(1, 0, 0, 0))
  {
    hide Executable, Final;
    run := OneTask();
    run := Next(run, Start(1));
    run := Next(run, Complete(1));
    run := Next(run, Release(1));
    run := Next(run, Unregister(1));
  }

  /** The loop of `wait` may return while the only task is uncounted: one future submitted, none executed or crashed. */
  lemma WaitMayMissATask()
    ensures exists steps :: Executable(Init(1), steps)
              && var s := Final(Init(1), steps);
                 !s.terminated && s.loop.Exited? && s.submitted == 1 && s.stats.executed + s.stats.crashed == 0
  {
    hide Executable, Final;
    var run := OneTaskAboutToCount();
    run := Next(run, CloseQueue);
    run := Next(run, LoopActs);
    run := Next(run, LoopActs);
    run := Next(run, LoopActs);
    run := Next(run, LoopActs);
  }
}
