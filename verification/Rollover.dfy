/** The pool rollover of a multi-log ingest: a coordinator swaps the live pool on
    every tick and hands the old one to a single flush worker through a bounded
    channel; the deferred teardown stops the coordinator, hands over the live
    pool, closes the channel and waits for the worker.

    Pools are numbered in install order, so the pool in the shared reference is
    always `installed - 1`. Any goroutine may take the next step.
  */
module Rollover {
  const FLUSH_QUEUE_DEPTH := 4

  /** The coordinator: at its outer select, in the grace and inner select, in the
      synchronous send a cancellation forces, or gone. */
  datatype Coordinator = Selecting | Holding(pool: nat) | MustSend(pool: nat) | Stopped

  datatype Worker = Ready | Flushing(pool: nat) | Exited

  /** The ingest call: serving events, then the steps of its deferred teardown. */
  datatype Main = Serving | Joining | Sending | Closing | Waiting | Returned

  datatype State = State(
    installed: nat,
    coord: Coordinator,
    tick: bool,
    cancelled: bool,
    queue: seq<nat>,
    closed: bool,
    worker: Worker,
    main: Main,
    flushed: seq<nat>)

  datatype Step =
    | Tick | ParentCancel
    | CoordRollover | CoordStop | CoordEnqueue | CoordCancelled | CoordForcedSend
    | WorkerTake | WorkerFinish | WorkerExit
    | MainReturn | MainJoined | MainSend | MainClose | MainDone

  const START := State(1, Selecting, false, false, [], false, Ready, Serving, [])

  predicate HasRoom(s: State) {
    |s.queue| < FLUSH_QUEUE_DEPTH
  }

  predicate Enabled(s: State, step: Step) {
    match step
    case Tick => true
    case ParentCancel => !s.cancelled
    case CoordRollover => s.coord.Selecting? && s.tick
    case CoordStop => s.coord.Selecting? && s.cancelled
    case CoordEnqueue => s.coord.Holding? && HasRoom(s)
    case CoordCancelled => s.coord.Holding? && s.cancelled
    case CoordForcedSend => s.coord.MustSend? && HasRoom(s)
    case WorkerTake => s.worker.Ready? && s.queue != []
    case WorkerFinish => s.worker.Flushing?
    case WorkerExit => s.worker.Ready? && s.queue == [] && s.closed
    case MainReturn => s.main.Serving?
    case MainJoined => s.main.Joining? && s.coord.Stopped?
    case MainSend => s.main.Sending? && HasRoom(s)
    case MainClose => s.main.Closing?
    case MainDone => s.main.Waiting? && s.worker.Exited?
  }

  function Apply(s: State, step: Step): (s': State)
    requires Enabled(s, step)
  {
    match step
    case Tick => s.(tick := true)
    case ParentCancel => s.(cancelled := true)
    case CoordRollover =>
      var live := if s.installed > 0 then s.installed - 1 else 0;
      s.(tick := false, installed := s.installed + 1, coord := Holding(live))
    case CoordStop => s.(coord := Stopped)
    case CoordEnqueue => s.(queue := s.queue + [s.coord.pool], coord := Selecting)
    case CoordCancelled => s.(coord := MustSend(s.coord.pool))
    case CoordForcedSend => s.(queue := s.queue + [s.coord.pool], coord := Stopped)
    case WorkerTake => s.(worker := Flushing(s.queue[0]), queue := s.queue[1..])
    case WorkerFinish => s.(worker := Ready, flushed := s.flushed + [s.worker.pool])
    case WorkerExit => s.(worker := Exited)
    case MainReturn => s.(main := Joining, cancelled := true)
    case MainJoined => s.(main := Sending)
    case MainSend =>
      var live := if s.installed > 0 then s.installed - 1 else 0;
      s.(main := Closing, queue := s.queue + [live])
    case MainClose => s.(main := Waiting, closed := true)
    case MainDone => s.(main := Returned)
  }

  predicate Legal(s: State, steps: seq<Step>)
    decreases |steps|
  {
    steps == [] || (Enabled(s, steps[0]) && Legal(Apply(s, steps[0]), steps[1..]))
  }

  function After(s: State, steps: seq<Step>): (s': State)
    requires Legal(s, steps)
    decreases |steps|
  {
    if steps == [] then s else After(Apply(s, steps[0]), steps[1..])
  }

  // ---- where every pool is --------------------------------------------------

  function InFlush(s: State): (ps: seq<nat>) {
    if s.worker.Flushing? then [s.worker.pool] else []
  }

  function InHand(s: State): (ps: seq<nat>) {
    if s.coord.Holding? || s.coord.MustSend? then [s.coord.pool] else []
  }

  /** The live pool, until the teardown has handed it over. */
  function Live(s: State): (ps: seq<nat>) {
    if s.installed == 0 || s.main.Closing? || s.main.Waiting? || s.main.Returned? then [] else [s.installed - 1]
  }

  function Everywhere(s: State): (ps: seq<nat>) {
    s.flushed + (InFlush(s) + (s.queue + (InHand(s) + Live(s))))
  }

  ghost predicate Inv(s: State) {
    && s.installed > 0
    && |Everywhere(s)| == s.installed
    && (forall i :: 0 <= i < s.installed ==> Everywhere(s)[i] == i)
    && |s.queue| <= FLUSH_QUEUE_DEPTH
    && (s.closed <==> s.main.Waiting? || s.main.Returned?)
    && (!s.main.Serving? ==> s.cancelled)
    && (!s.main.Serving? && !s.main.Joining? ==> s.coord.Stopped?)
    && (s.worker.Exited? ==> s.closed && s.queue == [])
    && (s.main.Returned? ==> s.worker.Exited?)
  }

  lemma Regroup(a: seq<nat>, x: seq<nat>, b: seq<nat>)
    ensures (a + x) + b == a + (x + b)
  {
  }

  lemma RolloverMovesPools(s: State)
    requires Enabled(s, CoordRollover) && Live(s) == [s.installed - 1]
    ensures Everywhere(Apply(s, CoordRollover)) == Everywhere(s) + [s.installed]
  {
    var hand, live := InHand(s) + Live(s), [s.installed];
    assert InHand(Apply(s, CoordRollover)) + Live(Apply(s, CoordRollover)) == hand + live;
    Regroup(s.queue, hand, live);
    Regroup(InFlush(s), s.queue + hand, live);
    Regroup(s.flushed, InFlush(s) + (s.queue + hand), live);
  }

  lemma HandMovesPools(s: State, step: Step)
    requires Enabled(s, step) && (step.CoordEnqueue? || step.CoordForcedSend?)
    ensures Everywhere(Apply(s, step)) == Everywhere(s)
  {
    Regroup(s.queue, InHand(s), Live(s));
  }

  lemma TakeMovesPools(s: State)
    requires Enabled(s, WorkerTake)
    ensures Everywhere(Apply(s, WorkerTake)) == Everywhere(s)
  {
    var rest, head := InHand(s) + Live(s), [s.queue[0]];
    var s' := Apply(s, WorkerTake);
    assert s.queue == head + s.queue[1..];
    Regroup(head, s.queue[1..], rest);
    assert InFlush(s') + (s'.queue + (InHand(s') + Live(s'))) == head + (s.queue[1..] + rest);
    assert InFlush(s) + (s.queue + rest) == s.queue + rest;
  }

  lemma FinishMovesPools(s: State)
    requires Enabled(s, WorkerFinish)
    ensures Everywhere(Apply(s, WorkerFinish)) == Everywhere(s)
  {
    var rest := s.queue + (InHand(s) + Live(s));
    var s' := Apply(s, WorkerFinish);
    Regroup(s.flushed, InFlush(s), rest);
    assert InFlush(s') + (s'.queue + (InHand(s') + Live(s'))) == rest;
  }

  /** A step installs one new pool at the end or only passes pools along. */
  lemma StepMovesPools(s: State, step: Step)
    requires Inv(s) && Enabled(s, step)
    ensures Everywhere(Apply(s, step)) == Everywhere(s) + (if step.CoordRollover? then [s.installed] else [])
  {
    match step
    case CoordRollover => RolloverMovesPools(s);
    case CoordEnqueue => HandMovesPools(s, step);
    case CoordForcedSend => HandMovesPools(s, step);
    case WorkerTake => TakeMovesPools(s);
    case WorkerFinish => FinishMovesPools(s);
    case MainSend =>
      Regroup(s.queue, InHand(s), Live(s));
    case _ =>
  }

  lemma StepKeepsInv(s: State, step: Step)
    requires Inv(s) && Enabled(s, step)
    ensures Inv(Apply(s, step))
  {
    StepMovesPools(s, step);
  }

  lemma {:induction false} RunKeepsInv(s: State, steps: seq<Step>)
    requires Inv(s) && Legal(s, steps)
    ensures Inv(After(s, steps))
    decreases |steps|
  {
    if steps != [] {
      StepKeepsInv(s, steps[0]);
      RunKeepsInv(Apply(s, steps[0]), steps[1..]);
    }
  }

  // ---- safety over whole runs -------------------------------------------------

  /** Pools reach FlushAll once each and in install order: what has been handed over is
      always 0, 1, 2, ... with none skipped, and on return it is every pool installed. */
  lemma FlushedOnceInOrder(steps: seq<Step>)
    requires Legal(START, steps)
    ensures
      var s := After(START, steps);
      && |s.flushed + InFlush(s)| <= s.installed
      && (forall i :: 0 <= i < |s.flushed + InFlush(s)| ==> (s.flushed + InFlush(s))[i] == i)
      && (s.main.Returned? ==> |s.flushed| == s.installed)
  {
    RunKeepsInv(START, steps);
    var s := After(START, steps);
    var handed := s.flushed + InFlush(s);
    Regroup(s.flushed, InFlush(s), s.queue + (InHand(s) + Live(s)));
    forall i | 0 <= i < |handed| ensures handed[i] == i {
      assert handed[i] == Everywhere(s)[i];
    }
  }

  /** Never more than the four queued, one flush, one hand and the live pool are unflushed. */
  lemma StagedPoolsBounded(steps: seq<Step>)
    requires Legal(START, steps)
    ensures After(START, steps).installed - |After(START, steps).flushed| <= 7
  {
    RunKeepsInv(START, steps);
  }

  /** Whoever is about to send finds the channel open. */
  lemma NoSendAfterClose(steps: seq<Step>)
    requires Legal(START, steps)
    ensures
      var s := After(START, steps);
      s.coord.Holding? || s.coord.MustSend? || s.main.Sending? ==> !s.closed
  {
    RunKeepsInv(START, steps);
  }

  /** A tick makes a waiting coordinator install a new pool and take the one before it in hand. */
  lemma TickRollsOver(s: State)
    requires Inv(s) && s.coord.Selecting?
    ensures Legal(s, [Tick, CoordRollover])
    ensures
      var t := After(s, [Tick, CoordRollover]);
      t.installed == s.installed + 1 && t.coord == Holding(s.installed - 1) && t.queue == s.queue
  {
    var ticked := Apply(s, Tick);
    var rest := [CoordRollover];
    assert [Tick, CoordRollover][1..] == rest && rest[1..] == [];
    assert Legal(ticked, rest) && After(ticked, rest) == Apply(ticked, CoordRollover);
  }

  /** The caller's cancellation stops a waiting coordinator, and one with a pool in hand once that is sent. */
  lemma CancelStops(s: State)
    requires Inv(s) && !s.cancelled && HasRoom(s)
    ensures s.coord.Selecting? ==>
              Legal(s, [ParentCancel, CoordStop]) && After(s, [ParentCancel, CoordStop]).coord.Stopped?
    ensures s.coord.Holding? ==>
              var steps := [ParentCancel, CoordCancelled, CoordForcedSend];
              && Legal(s, steps) && After(s, steps).coord.Stopped?
              && After(s, steps).queue == s.queue + [s.coord.pool]
  {
    var cancelled := Apply(s, ParentCancel);
    if s.coord.Selecting? {
      assert [ParentCancel, CoordStop][1..] == [CoordStop];
      assert Legal(cancelled, [CoordStop]) && After(cancelled, [CoordStop]) == Apply(cancelled, CoordStop);
    }
    if s.coord.Holding? {
      var forced := Apply(cancelled, CoordCancelled);
      assert [ParentCancel, CoordCancelled, CoordForcedSend][1..] == [CoordCancelled, CoordForcedSend];
      assert [CoordCancelled, CoordForcedSend][1..] == [CoordForcedSend];
      assert Legal(forced, [CoordForcedSend]) && After(forced, [CoordForcedSend]) == Apply(forced, CoordForcedSend);
    }
  }

  // ---- the teardown terminates --------------------------------------------------

  function CoordRank(c: Coordinator): (r: nat) {
    match c
    case Selecting => 1
    case Holding(_) => 4
    case MustSend(_) => 3
    case Stopped => 0
  }

  function WorkerRank(w: Worker): (r: nat) {
    match w
    case Ready => 1
    case Flushing(_) => 2
    case Exited => 0
  }

  function MainRank(m: Main): (r: nat) {
    match m
    case Serving => 7
    case Joining => 6
    case Sending => 5
    case Closing => 2
    case Waiting => 1
    case Returned => 0
  }

  function Rank(s: State): (r: nat) {
    2 * |s.queue| + WorkerRank(s.worker) + CoordRank(s.coord) + (if s.tick then 4 else 0) + MainRank(s.main)
  }

  function Ticks(steps: seq<Step>): (n: nat) {
    if steps == [] then 0 else (if steps[0].Tick? then 1 else 0) + Ticks(steps[1..])
  }

  lemma StepLowersRank(s: State, step: Step)
    requires Inv(s) && !s.main.Serving? && Enabled(s, step)
    ensures !Apply(s, step).main.Serving?
    ensures Rank(Apply(s, step)) < Rank(s) + (if step.Tick? then 5 else 0)
  {
  }

  /** Once the call has begun to return, runs are finite: the only way to prolong one is
      another tick of the hourly ticker, and each tick buys at most five more steps. */
  lemma {:induction false} TeardownIsFinite(s: State, steps: seq<Step>)
    requires Inv(s) && !s.main.Serving? && Legal(s, steps)
    ensures |steps| + Rank(After(s, steps)) <= Rank(s) + 5 * Ticks(steps)
    decreases |steps|
  {
    if steps != [] {
      StepKeepsInv(s, steps[0]);
      StepLowersRank(s, steps[0]);
      TeardownIsFinite(Apply(s, steps[0]), steps[1..]);
    }
  }

  /** Some goroutine can always move until the call has returned: the teardown cannot deadlock. */
  function Mover(s: State): (step: Step) {
    if s.worker.Flushing? then WorkerFinish
    else if s.worker.Ready? && s.queue != [] then WorkerTake
    else match s.main
      case Serving => MainReturn
      case Joining =>
        (match s.coord
         case Selecting => CoordStop
         case Holding(_) => CoordCancelled
         case MustSend(_) => CoordForcedSend
         case Stopped => MainJoined)
      case Sending => MainSend
      case Closing => MainClose
      case Waiting => if s.worker.Exited? then MainDone else WorkerExit
      case Returned => Tick
  }

  lemma TeardownNeverStuck(s: State)
    requires Inv(s) && !s.main.Returned?
    ensures Enabled(s, Mover(s)) && !Mover(s).Tick?
  {
  }

  /** Left alone by the ticker, following any enabled mover brings the call home with every pool flushed. */
  lemma {:induction false} TeardownReturns(s: State) returns (steps: seq<Step>)
    requires Inv(s) && !s.main.Serving?
    ensures Legal(s, steps) && Ticks(steps) == 0
    ensures After(s, steps).main.Returned?
    ensures After(s, steps).flushed == seq(s.installed, i => i)
    decreases Rank(s)
  {
    if s.main.Returned? {
      steps := [];
      assert Everywhere(s) == s.flushed;
    } else {
      TeardownNeverStuck(s);
      var step := Mover(s);
      StepKeepsInv(s, step);
      StepLowersRank(s, step);
      var rest := TeardownReturns(Apply(s, step));
      steps := [step] + rest;
      assert steps[1..] == rest;
    }
  }

  /** From any moment of any run the call can return, with every pool flushed in order. */
  lemma CallReturns(s: State) returns (steps: seq<Step>)
    requires Inv(s)
    ensures Legal(s, steps) && Ticks(steps) == 0
    ensures After(s, steps).main.Returned?
    ensures After(s, steps).flushed == seq(s.installed, i => i)
  {
    if s.main.Serving? {
      StepKeepsInv(s, MainReturn);
      var rest := TeardownReturns(Apply(s, MainReturn));
      steps := [MainReturn] + rest;
      assert steps[1..] == rest;
    } else {
      steps := TeardownReturns(s);
    }
  }
}
