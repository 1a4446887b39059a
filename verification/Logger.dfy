/** The asynchronous log: producers, the worker thread, and shutdown, interleaved in any order. */
module Logger {
  import opened Sequences

  type Line = string

  /**
   * Where the worker is. `Checking`, `Parking`, `Ready` and `Swapped` hold the mutex; `Parking` has found the wait
   * predicate false and is about to give up the mutex and sleep in one go.
   */
  datatype Worker =
    | Top
    | Checking
    | Parking
    | Asleep
    | Woken
    | Ready
    | Swapped(swapped: seq<Line>)
    | Writing(local: seq<Line>, stop: bool)
    | Exited

  /** `notifies` counts `enqueue` calls between unlocking and notifying; `stopNotify` is the same for `shutdown`. */
  datatype State = State(
    queue: seq<Line>,
    shouldStop: bool,
    worker: Worker,
    notifies: nat,
    stopNotify: bool,
    written: seq<Line>)

  datatype Step =
    | Push(line: Line)
    | Notify
    | StoreStop
    | NotifyStop
    | SpuriousWakeup
    | Lock
    | TestPredicate
    | Park
    | Swap
    | ReadStop
    | WriteLine
    | Finish

  const START := State([], false, Top, 0, false, [])

  predicate WorkerHoldsMutex(w: Worker) {
    w.Checking? || w.Parking? || w.Ready? || w.Swapped?
  }

  predicate Enabled(s: State, e: Step) {
    match e
    case Push(_) => !WorkerHoldsMutex(s.worker)
    case Notify => s.notifies > 0
    case StoreStop => !s.shouldStop
    case NotifyStop => s.stopNotify
    case SpuriousWakeup => s.worker.Asleep?
    case Lock => s.worker.Top? || s.worker.Woken?
    case TestPredicate => s.worker.Checking?
    case Park => s.worker.Parking?
    case Swap => s.worker.Ready?
    case ReadStop => s.worker.Swapped?
    case WriteLine => s.worker.Writing? && s.worker.local != []
    case Finish => s.worker.Writing? && s.worker.local == []
  }

  /** `notify_one` with the worker as the only possible sleeper. */
  function Wake(s: State): State {
    if s.worker.Asleep? then s.(worker := Woken) else s
  }

  function Apply(s: State, e: Step): State
    requires Enabled(s, e)
  {
    match e
    case Push(line) => s.(queue := s.queue + [line], notifies := s.notifies + 1)
    case Notify => Wake(s.(notifies := s.notifies - 1))
    case StoreStop => s.(shouldStop := true, stopNotify := true)
    case NotifyStop => Wake(s.(stopNotify := false))
    case SpuriousWakeup => Wake(s)
    case Lock => s.(worker := Checking)
    case TestPredicate => s.(worker := if s.shouldStop || s.queue != [] then Ready else Parking)
    case Park => s.(worker := Asleep)
    case Swap => s.(worker := Swapped(s.queue), queue := [])
    case ReadStop => s.(worker := Writing(s.worker.swapped, s.shouldStop))
    case WriteLine =>
      s.(written := s.written + [s.worker.local[0]], worker := Writing(s.worker.local[1..], s.worker.stop))
    case Finish => s.(worker := if s.worker.stop then Exited else Top)
  }

  // ---------- the code ----------

  class Log {
    var queue: seq<Line>
    var shouldStop: bool
    var worker: Worker
    var notifies: nat
    var stopNotify: bool
    var written: seq<Line>

    ghost function Now(): State
      reads this
    {
      State(queue, shouldStop, worker, notifies, stopNotify, written)
    }

    constructor ()
      ensures Now() == START
    {
      queue, shouldStop, worker, notifies, stopNotify, written := [], false, Top, 0, false, [];
    }

    /** The locked part of `enqueue`. */
    method PushLine(line: Line)
      requires Enabled(Now(), Push(line))
      modifies this
      ensures Now() == Apply(old(Now()), Push(line))
    {
      queue := queue + [line];
      notifies := notifies + 1;
    }

    /** The rest of `enqueue`, outside the mutex. */
    method NotifyWorker()
      requires Enabled(Now(), Notify)
      modifies this
      ensures Now() == Apply(old(Now()), Notify)
    {
      notifies := notifies - 1;
      WakeWorker();
    }

    method WakeWorker()
      modifies `worker
      ensures Now() == Wake(old(Now()))
    {
      if worker.Asleep? {
        worker := Woken;
      }
    }

    /** `shutdown` up to the store; the mutex is not taken. */
    method StoreStopFlag() returns (first: bool)
      modifies this
      ensures first == !old(shouldStop)
      ensures Now() == if first then Apply(old(Now()), StoreStop) else old(Now())
    {
      if shouldStop {
        return false;
      }
      shouldStop := true;
      stopNotify := true;
      first := true;
    }

    method NotifyStopFlag()
      requires Enabled(Now(), NotifyStop)
      modifies this
      ensures Now() == Apply(old(Now()), NotifyStop)
    {
      stopNotify := false;
      WakeWorker();
    }

    /** One test of the wait predicate, ending in sleep or in the critical section. */
    method WaitOnce()
      requires worker.Checking?
      modifies this
      ensures Now() == Apply(old(Now()), TestPredicate)
    {
      if shouldStop || queue != [] {
        worker := Ready;
      } else {
        worker := Parking;
      }
    }

    method TakeQueue()
      requires worker.Ready?
      modifies this
      ensures Now() == Apply(old(Now()), Swap)
    {
      var local := [];
      local, queue := queue, local;
      worker := Swapped(local);
    }

    /** Reading the flag and unlocking; the flag is read after the swap. */
    method LeaveMutex()
      requires worker.Swapped?
      modifies this
      ensures Now() == Apply(old(Now()), ReadStop)
    {
      worker := Writing(worker.swapped, shouldStop);
    }

    /** The write loop and the decision to return. */
    method WriteLines()
      requires worker.Writing?
      modifies this
      ensures queue == old(queue) && shouldStop == old(shouldStop)
      ensures written == old(written) + old(worker.local)
      ensures worker == if old(worker.stop) then Exited else Top
    {
      var stop := worker.stop;
      while worker.local != []
        invariant worker.Writing? && worker.stop == stop
        invariant written + worker.local == old(written) + old(worker.local)
        invariant queue == old(queue) && shouldStop == old(shouldStop)
        decreases |worker.local|
      {
        assert [worker.local[0]] + worker.local[1..] == worker.local;
        written := written + [worker.local[0]];
        worker := Writing(worker.local[1..], stop);
      }
      worker := if stop then Exited else Top;
    }
  }

  // ---------- runs ----------

  predicate IsRun(s: State, steps: seq<Step>)
    decreases |steps|
  {
    steps == [] || (Enabled(s, steps[0]) && IsRun(Apply(s, steps[0]), steps[1..]))
  }

  function RunFrom(s: State, steps: seq<Step>): State
    requires IsRun(s, steps)
    decreases |steps|
  {
    if steps == [] then s else RunFrom(Apply(s, steps[0]), steps[1..])
  }

  /** The lines whose `enqueue` left the mutex, in order. */
  function Pushed(steps: seq<Step>): seq<Line> {
    if steps == [] then []
    else (if steps[0].Push? then [steps[0].line] else []) + Pushed(steps[1..])
  }

  /** Those of them that did so before the stop flag was stored. */
  function PushedBeforeStop(steps: seq<Step>): seq<Line> {
    if steps == [] || steps[0].StoreStop? then []
    else (if steps[0].Push? then [steps[0].line] else []) + PushedBeforeStop(steps[1..])
  }

  function InHand(w: Worker): seq<Line> {
    match w
    case Swapped(lines) => lines
    case Writing(lines, _) => lines
    case _ => []
  }

  /** The lines in the order in which they leave: written, in the worker's hand, still queued. */
  function AllLines(s: State): seq<Line> {
    s.written + InHand(s.worker) + s.queue
  }

  /** Conservation, one step: only a push adds a line, at the end. */
  lemma StepConserves(s: State, e: Step)
    requires Enabled(s, e)
    ensures AllLines(Apply(s, e)) == AllLines(s) + (if e.Push? then [e.line] else [])
  {
    match e {
      case Push(line) =>
        Regroup(s.written + InHand(s.worker), s.queue, [line]);
      case Swap =>
        assert s.written + [] + s.queue == s.written + s.queue + [];
      case WriteLine =>
        WriteConserves(s.written, s.worker.local, s.queue);
      case _ =>
        assert AllLines(s) + [] == AllLines(s);
    }
  }

  lemma WriteConserves(written: seq<Line>, local: seq<Line>, queue: seq<Line>)
    requires local != []
    ensures (written + [local[0]]) + local[1..] + queue == written + local + queue + []
  {
    assert local == [local[0]] + local[1..];
    Regroup(written, [local[0]], local[1..]);
  }

  /** In every run, what was written, what the worker holds and what is queued are together what was enqueued. */
  lemma {:induction false} Conservation(s: State, steps: seq<Step>)
    requires IsRun(s, steps)
    ensures AllLines(RunFrom(s, steps)) == AllLines(s) + Pushed(steps)
    decreases |steps|
  {
    hide AllLines;
    if steps != [] {
      StepConserves(s, steps[0]);
      Conservation(Apply(s, steps[0]), steps[1..]);
      Regroup(AllLines(s), if steps[0].Push? then [steps[0].line] else [], Pushed(steps[1..]));
    }
  }

  predicate FlagSeen(w: Worker) {
    (w.Writing? && w.stop) || w.Exited?
  }

  /** A worker that has seen the flag holds or has written every line that was pushed before the flag was stored. */
  predicate StopCovers(s: State, before: seq<Line>) {
    FlagSeen(s.worker) ==> before <= s.written + InHand(s.worker)
  }

  predicate SoundState(s: State) {
    && (FlagSeen(s.worker) ==> s.shouldStop)
    && (s.worker.Swapped? ==> s.queue == [])
  }

  lemma StepSound(s: State, e: Step)
    requires Enabled(s, e) && SoundState(s)
    ensures SoundState(Apply(s, e))
  {
  }

  /** Once the flag is stored, `before` is fixed: all lines cover it and, after the flag is seen, the worker's do. */
  lemma {:induction false} AfterStop(s: State, steps: seq<Step>, before: seq<Line>)
    requires IsRun(s, steps) && SoundState(s) && s.shouldStop
    requires before <= AllLines(s) && StopCovers(s, before)
    ensures StopCovers(RunFrom(s, steps), before)
    decreases |steps|
  {
    if steps != [] {
      StepSound(s, steps[0]);
      StepConserves(s, steps[0]);
      StepCovers(s, steps[0], before);
      AfterStop(Apply(s, steps[0]), steps[1..], before);
    }
  }

  lemma StepCovers(s: State, e: Step, before: seq<Line>)
    requires Enabled(s, e) && SoundState(s)
    requires before <= AllLines(s) && StopCovers(s, before)
    ensures StopCovers(Apply(s, e), before)
  {
    match e {
      case ReadStop =>
        assert AllLines(s) == s.written + s.worker.swapped;
      case WriteLine =>
        assert s.worker.local == [s.worker.local[0]] + s.worker.local[1..];
        Regroup(s.written, [s.worker.local[0]], s.worker.local[1..]);
      case _ =>
    }
  }

  lemma {:induction false} BeforeStop(s: State, steps: seq<Step>)
    requires IsRun(s, steps) && SoundState(s) && !s.shouldStop
    ensures StopCovers(RunFrom(s, steps), AllLines(s) + PushedBeforeStop(steps))
    decreases |steps|
  {
    hide AllLines;
    if steps == [] {
    } else if steps[0].StoreStop? {
      StepSound(s, steps[0]);
      StepConserves(s, steps[0]);
      assert AllLines(s) + [] == AllLines(s) == AllLines(Apply(s, steps[0]));
      AfterStop(Apply(s, steps[0]), steps[1..], AllLines(s));
    } else {
      StepSound(s, steps[0]);
      StepConserves(s, steps[0]);
      BeforeStop(Apply(s, steps[0]), steps[1..]);
      Regroup(AllLines(s), if steps[0].Push? then [steps[0].line] else [], PushedBeforeStop(steps[1..]));
    }
  }

  /**
   * When the worker has returned, it has written, in order and once each, every line enqueued before the flag was
   * stored, and possibly some of those enqueued after; nothing else was written.
   */
  lemma CleanExit(steps: seq<Step>)
    requires IsRun(START, steps) && RunFrom(START, steps).worker.Exited?
    ensures PushedBeforeStop(steps) <= RunFrom(START, steps).written <= Pushed(steps)
  {
    hide RunFrom, IsRun, Pushed, PushedBeforeStop;
    var s := RunFrom(START, steps);
    Conservation(START, steps);
    BeforeStop(START, steps);
    assert AllLines(START) == [];
    assert [] + Pushed(steps) == Pushed(steps);
    assert [] + PushedBeforeStop(steps) == PushedBeforeStop(steps);
    assert AllLines(s) == s.written + s.queue;
    assert s.written + InHand(s.worker) == s.written;
  }

  // ---------- wakeups ----------

  predicate Sleepy(w: Worker) {
    w.Parking? || w.Asleep?
  }

  /** A worker that sleeps on a filled queue has a notification on the way. */
  predicate WakeupsDue(s: State) {
    && (s.worker.Parking? ==> s.queue == [])
    && (s.worker.Asleep? && s.queue != [] ==> s.notifies > 0)
  }

  lemma StepKeepsWakeups(s: State, e: Step)
    requires Enabled(s, e) && WakeupsDue(s)
    ensures WakeupsDue(Apply(s, e))
  {
  }

  lemma {:induction false} RunKeepsWakeups(s: State, steps: seq<Step>)
    requires IsRun(s, steps) && WakeupsDue(s)
    ensures WakeupsDue(RunFrom(s, steps))
    decreases |steps|
  {
    if steps != [] {
      StepKeepsWakeups(s, steps[0]);
      RunKeepsWakeups(Apply(s, steps[0]), steps[1..]);
    }
  }

  /** No line's wakeup is lost: a worker that sleeps on a filled queue has a notification on the way. */
  lemma LinesWakeTheWorker(steps: seq<Step>)
    requires IsRun(START, steps)
    ensures var s := RunFrom(START, steps); s.worker.Asleep? && s.queue != [] ==> s.notifies > 0
  {
    RunKeepsWakeups(START, steps);
  }

  /** `shutdown` has stored the flag and sent its one notification. */
  predicate Announced(s: State) {
    s.shouldStop && !s.stopNotify
  }

  /** A notification or a spurious wakeup that finds the worker asleep. */
  predicate Wakes(s: State, e: Step) {
    s.worker.Asleep? && (e.Notify? || e.NotifyStop? || e.SpuriousWakeup?)
  }

  predicate NeverWoken(s: State, steps: seq<Step>)
    requires IsRun(s, steps)
    decreases |steps|
  {
    steps == [] || (!Wakes(s, steps[0]) && NeverWoken(Apply(s, steps[0]), steps[1..]))
  }

  /** Some stop notification of the run came while the worker was parking, and nothing woke the worker after that. */
  predicate StopMissed(s: State, steps: seq<Step>)
    requires IsRun(s, steps)
    decreases |steps|
  {
    steps != [] &&
    ((steps[0].NotifyStop? && s.worker.Parking? && NeverWoken(Apply(s, steps[0]), steps[1..]))
     || StopMissed(Apply(s, steps[0]), steps[1..]))
  }

  /** After the announcement the worker is asleep, or about to be, exactly if it already was and nothing woke it. */
  lemma {:induction false} AfterAnnouncement(s: State, steps: seq<Step>)
    requires IsRun(s, steps) && Announced(s)
    ensures Announced(RunFrom(s, steps)) && !StopMissed(s, steps)
    ensures Sleepy(RunFrom(s, steps).worker) <==> Sleepy(s.worker) && NeverWoken(s, steps)
    decreases |steps|
  {
    if steps != [] {
      AfterAnnouncement(Apply(s, steps[0]), steps[1..]);
    }
  }

  lemma {:induction false} BeforeAnnouncement(s: State, steps: seq<Step>)
    requires IsRun(s, steps) && !Announced(s) && (s.stopNotify ==> s.shouldStop)
    requires Announced(RunFrom(s, steps))
    ensures Sleepy(RunFrom(s, steps).worker) <==> StopMissed(s, steps)
    decreases |steps|
  {
    if steps != [] {
      if steps[0].NotifyStop? {
        AfterAnnouncement(Apply(s, steps[0]), steps[1..]);
      } else {
        BeforeAnnouncement(Apply(s, steps[0]), steps[1..]);
      }
    }
  }

  /**
   * Once the flag is stored and announced, the worker is asleep, or about to be, exactly when the announcement came
   * between its test of the predicate and its sleep, and no later notification or spurious wakeup woke it.
   */
  lemma StopIsLostExactlyWhenMissed(steps: seq<Step>)
    requires IsRun(START, steps) && Announced(RunFrom(START, steps))
    ensures Sleepy(RunFrom(START, steps).worker) <==> StopMissed(START, steps)
  {
    BeforeAnnouncement(START, steps);
  }

  lemma OnlyPushesLeft(s: State)
    requires Announced(s) && s.worker.Asleep?
    ensures forall e :: Enabled(s, e) && !e.Notify? && !e.SpuriousWakeup? ==> e.Push?
    ensures forall e | IsWorkerStep(e) :: !Enabled(s, e)
  {
  }

  /**
   * A worker asleep after the announcement stays so for ever, unless a notification for a line or a spurious wakeup
   * comes: no step of its own is enabled, nothing is written, and all that can happen is that producers push lines.
   */
  lemma {:induction false} LostStopIsForEver(s: State, steps: seq<Step>)
    requires IsRun(s, steps) && Announced(s) && s.worker.Asleep?
    requires forall i | 0 <= i < |steps| :: !steps[i].Notify? && !steps[i].SpuriousWakeup?
    ensures var end := RunFrom(s, steps);
            && end == s.(queue := s.queue + Pushed(steps), notifies := s.notifies + |steps|)
            && forall e | IsWorkerStep(e) :: !Enabled(end, e)
    ensures forall i | 0 <= i < |steps| :: steps[i].Push?
    decreases |steps|
  {
    hide Enabled;
    OnlyPushesLeft(s);
    if steps == [] {
      assert s.queue + [] == s.queue;
    } else {
      LostStopIsForEver(Apply(s, steps[0]), steps[1..]);
      Regroup(s.queue, [steps[0].line], Pushed(steps[1..]));
    }
  }

  /** The announcement can be lost: the worker then sleeps with the flag stored and nobody left to wake it. */
  lemma StopCanBeLost()
    ensures var steps := [Lock, TestPredicate, StoreStop, NotifyStop, Park];
            && IsRun(START, steps)
            && var s := RunFrom(START, steps);
               s.worker.Asleep? && Announced(s) && s.notifies == 0
  {
    var s1 := Apply(START, Lock);
    var s2 := Apply(s1, TestPredicate);
    var s3 := Apply(s2, StoreStop);
    var s4 := Apply(s3, NotifyStop);
    var s5 := Apply(s4, Park);
    RunCons(s4, Park, []);
    RunCons(s3, NotifyStop, [Park]);
    RunCons(s2, StoreStop, [NotifyStop, Park]);
    RunCons(s1, TestPredicate, [StoreStop, NotifyStop, Park]);
    RunCons(START, Lock, [TestPredicate, StoreStop, NotifyStop, Park]);
  }

  lemma RunCons(s: State, e: Step, steps: seq<Step>)
    requires Enabled(s, e) && IsRun(Apply(s, e), steps)
    ensures IsRun(s, [e] + steps) && RunFrom(s, [e] + steps) == RunFrom(Apply(s, e), steps)
  {
    assert ([e] + steps)[1..] == steps;
  }

  // ---------- the way out ----------

  predicate IsWorkerStep(e: Step) {
    e.Lock? || e.TestPredicate? || e.Park? || e.Swap? || e.ReadStop? || e.WriteLine? || e.Finish?
  }

  /** How many stages the worker is from the exit; inside a stage, how many lines. */
  function StagesLeft(w: Worker): nat {
    match w
    case Writing(_, false) => 6
    case Top => 5
    case Woken => 5
    case Checking => 4
    case Ready => 3
    case Swapped(_) => 2
    case Writing(_, true) => 1
    case _ => 0
  }

  function LinesLeft(w: Worker): nat {
    if w.Writing? then |w.local| else 0
  }

  /**
   * If the stop was announced and found the worker anywhere but on its way to sleep, the worker always has a step to
   * take until it returns, each of its steps brings it closer, and nothing the producers do sets it back.
   */
  lemma StoppedWorkerAdvances(s: State, e: Step)
    requires Announced(s) && !Sleepy(s.worker)
    requires Enabled(s, e)
    ensures var s' := Apply(s, e);
            && Announced(s') && !Sleepy(s'.worker)
            && (IsWorkerStep(e) ==>
                 StagesLeft(s'.worker) < StagesLeft(s.worker)
                 || (StagesLeft(s'.worker) == StagesLeft(s.worker) && LinesLeft(s'.worker) < LinesLeft(s.worker)))
            && (!IsWorkerStep(e) ==> s'.worker == s.worker)
    ensures s.worker.Exited? <==> forall w | IsWorkerStep(w) :: !Enabled(s, w)
  {
    if !s.worker.Exited? {
      var next :=
        match s.worker
        case Checking => TestPredicate
        case Ready => Swap
        case Swapped(_) => ReadStop
        case Writing(lines, _) => if lines == [] then Finish else WriteLine
        case _ => Lock;
      assert IsWorkerStep(next) && Enabled(s, next);
    }
  }
}
