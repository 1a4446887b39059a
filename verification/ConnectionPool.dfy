/** The connection pool as the atomic steps its mutex allows, interleaved in any order. */
module ConnectionPool {
  import opened Wrappers

  type Thread = nat

  /** A connection is known by its place in the order of creation. */
  type Connection = nat

  /** A connection that `acquire` handed to a thread and that was not released yet. */
  datatype Guard = Guard(owner: Thread, connection: Connection)

  /**
   * Where a thread inside `wait_for` is: asleep, or woken and on its way to the mutex. A woken thread was either picked
   * by `notify_one` or came out by its deadline or by a spurious wakeup.
   */
  datatype Waiter = Blocked | Notified(timedOut: bool) | Unnotified(timedOut: bool)

  datatype State = State(stack: seq<Connection>, waiters: map<Thread, Waiter>, held: seq<Guard>)

  datatype Step =
    | Enter(thread: Thread)
    | Resume(thread: Thread)
    | Release(guard: nat, notified: Option<Thread>)
    | ReleaseNull
    | WakeUp(thread: Thread, timedOut: bool)
    | DeadlinePasses(thread: Thread)

  datatype Outcome = Acquired(connection: Connection) | Waits | Throws | Continues

  predicate IsBlocked(s: State, t: Thread) {
    t in s.waiters && s.waiters[t].Blocked?
  }

  /** Whether the step can happen: `notify_one` wakes some blocked thread whenever there is one. */
  ghost predicate Enabled(s: State, e: Step) {
    match e
    case Enter(t) => t !in s.waiters
    case Resume(t) => t in s.waiters && !s.waiters[t].Blocked?
    case Release(k, notified) =>
      && k < |s.held|
      && (match notified
          case Some(t) => IsBlocked(s, t)
          case None => forall t :: !IsBlocked(s, t))
    case ReleaseNull => true
    case WakeUp(t, _) => IsBlocked(s, t)
    case DeadlinePasses(t) => t in s.waiters && s.waiters[t].Notified?
  }

  /** `stack.back()` and `pop_back()`. */
  function Popped(s: State, t: Thread): State
    requires s.stack != []
  {
    var last := |s.stack| - 1;
    State(s.stack[..last], s.waiters - {t}, s.held + [Guard(t, s.stack[last])])
  }

  function Apply(s: State, e: Step): State
    requires Enabled(s, e)
  {
    match e
    case Enter(t) => if s.stack != [] then Popped(s, t) else s.(waiters := s.waiters[t := Blocked])
    case Resume(t) =>
      if s.stack != [] then Popped(s, t)
      else if s.waiters[t].timedOut then s.(waiters := s.waiters - {t})
      else s.(waiters := s.waiters[t := Blocked])
    case Release(k, notified) =>
      State(s.stack + [s.held[k].connection],
            if notified.Some? then s.waiters[notified.value := Notified(false)] else s.waiters,
            s.held[..k] + s.held[k + 1..])
    case ReleaseNull => s
    case WakeUp(t, timedOut) => s.(waiters := s.waiters[t := Unnotified(timedOut)])
    case DeadlinePasses(t) => s.(waiters := s.waiters[t := Notified(true)])
  }

  /** What the thread that takes the step sees. */
  function OutcomeOf(s: State, e: Step): Outcome
    requires Enabled(s, e)
  {
    match e
    case Enter(_) => if s.stack != [] then Acquired(s.stack[|s.stack| - 1]) else Waits
    case Resume(t) =>
      if s.stack != [] then Acquired(s.stack[|s.stack| - 1])
      else if s.waiters[t].timedOut then Throws
      else Waits
    case _ => Continues
  }

  /** The loop counter is unsigned and the bound is signed: a negative size creates nothing. */
  function Initial(poolSize: int): State {
    State(seq(if poolSize > 0 then poolSize else 0, i => i), map[], [])
  }

  ghost predicate IsRun(s: State, steps: seq<Step>)
    decreases |steps|
  {
    steps == [] || (Enabled(s, steps[0]) && IsRun(Apply(s, steps[0]), steps[1..]))
  }

  function RunFrom(s: State, steps: seq<Step>): State
    requires IsRun(s, steps)
    decreases |steps|
  {
    if steps == [] then s else RunFrom(Apply(s, steps[0]), steps[1..])
  }

  // ---------- the code ----------

  class Pool {
    var stack: seq<Connection>
    var waiters: map<Thread, Waiter>
    var held: seq<Guard>

    ghost function Now(): State
      reads this
    {
      State(stack, waiters, held)
    }

    constructor (poolSize: int)
      requires -0x80 <= poolSize < 0x80
      ensures Now() == Initial(poolSize)
    {
      stack := [];
      waiters := map[];
      held := [];
      new;
      var i := 0;
      while i < poolSize
        invariant 0 <= i && (poolSize > 0 ==> i <= poolSize) && (poolSize <= 0 ==> i == 0)
        invariant stack == seq(i, k => k) && waiters == map[] && held == []
      {
        stack := stack + [i];
        i := i + 1;
      }
    }

    /** `acquire` from taking the mutex to leaving it, by returning or by going to sleep. */
    method EnterAcquire(t: Thread) returns (r: Outcome)
      requires t !in waiters
      modifies this
      ensures Now() == Apply(old(Now()), Enter(t)) && r == OutcomeOf(old(Now()), Enter(t))
    {
      if stack == [] {
        waiters := waiters[t := Blocked];
        return Waits;
      }
      r := Pop(t);
    }

    /** `acquire` from getting the mutex back inside `wait_for`: the predicate is tested before the time-out counts. */
    method ResumeAcquire(t: Thread) returns (r: Outcome)
      requires t in waiters && !waiters[t].Blocked?
      modifies this
      ensures Now() == Apply(old(Now()), Resume(t)) && r == OutcomeOf(old(Now()), Resume(t))
    {
      if stack == [] {
        if waiters[t].timedOut {
          waiters := waiters - {t};
          return Throws;
        }
        waiters := waiters[t := Blocked];
        return Waits;
      }
      r := Pop(t);
    }

    method Pop(t: Thread) returns (r: Outcome)
      requires stack != []
      modifies this
      ensures Now() == Popped(old(Now()), t)
      ensures r == Acquired(old(stack)[|old(stack)| - 1])
    {
      var connection := stack[|stack| - 1];
      stack := stack[..|stack| - 1];
      waiters := waiters - {t};
      held := held + [Guard(t, connection)];
      r := Acquired(connection);
    }

    /** The guard's destructor; `None` is a guard whose pointer was moved away. */
    method ReleaseGuard(guard: Option<nat>) returns (ghost e: Step)
      requires guard.Some? ==> guard.value < |held|
      modifies this
      ensures e == ReleaseNull || (e.Release? && guard == Some(e.guard))
      ensures guard.Some? ==> e.Release?
      ensures Enabled(old(Now()), e) && Now() == Apply(old(Now()), e)
    {
      if guard.None? {
        return ReleaseNull;
      }
      var k := guard.value;
      var connection := held[k].connection;
      held := held[..k] + held[k + 1..];
      stack := stack + [connection];
      var blocked := set t | t in waiters && waiters[t].Blocked?;
      if blocked == {} {
        assert forall t :: IsBlocked(old(Now()), t) ==> t in blocked;
        return Release(k, None);
      }
      var t :| t in blocked;
      waiters := waiters[t := Notified(false)];
      e := Release(k, Some(t));
    }
  }

  // ---------- conservation ----------

  function Owned(held: seq<Guard>): (connections: seq<Connection>)
    ensures |connections| == |held|
    ensures forall k | 0 <= k < |held| :: connections[k] == held[k].connection
  {
    seq(|held|, k requires 0 <= k < |held| => held[k].connection)
  }

  /** Every connection of the pool is idle or owned, and is so once. */
  predicate Conserved(s: State, all: multiset<Connection>) {
    multiset(s.stack) + multiset(Owned(s.held)) == all
  }

  lemma PopConserves(s: State, t: Thread, all: multiset<Connection>)
    requires s.stack != [] && Conserved(s, all)
    ensures Conserved(Popped(s, t), all)
  {
    var last := |s.stack| - 1;
    assert s.stack == s.stack[..last] + [s.stack[last]];
    assert Owned(s.held + [Guard(t, s.stack[last])]) == Owned(s.held) + [s.stack[last]];
  }

  lemma ReleaseConserves(held: seq<Guard>, k: nat)
    requires k < |held|
    ensures multiset(Owned(held)) == multiset(Owned(held[..k] + held[k + 1..])) + multiset{held[k].connection}
  {
    var owned := Owned(held);
    assert owned == owned[..k] + [owned[k]] + owned[k + 1..];
    assert Owned(held[..k] + held[k + 1..]) == owned[..k] + owned[k + 1..];
  }

  lemma StepConserves(s: State, e: Step, all: multiset<Connection>)
    requires Enabled(s, e) && Conserved(s, all)
    ensures Conserved(Apply(s, e), all)
  {
    hide Owned, Popped;
    match e {
      case Enter(t) =>
        if s.stack != [] {
          PopConserves(s, t, all);
        }
      case Resume(t) =>
        if s.stack != [] {
          PopConserves(s, t, all);
        }
      case Release(k, _) =>
        ReleaseConserves(s.held, k);
        assert multiset(s.stack + [s.held[k].connection]) == multiset(s.stack) + multiset{s.held[k].connection};
      case _ =>
    }
  }

  // ---------- no lost wakeup ----------

  function NotifiedThreads(s: State): set<Thread> {
    set t | t in s.waiters && s.waiters[t].Notified?
  }

  /** While a thread sleeps, each idle connection is matched by a notified thread that has not run yet. */
  ghost predicate NoLostWakeup(s: State) {
    (exists t :: IsBlocked(s, t)) ==> |s.stack| <= |NotifiedThreads(s)|
  }

  lemma StepLosesNoWakeup(s: State, e: Step)
    requires Enabled(s, e) && NoLostWakeup(s)
    ensures NoLostWakeup(Apply(s, e))
  {
    match e {
      case Enter(t) =>
        if s.stack != [] {
          PopLosesNoWakeup(s, t);
        }
      case Resume(t) =>
        if s.stack != [] {
          PopLosesNoWakeup(s, t);
        }
      case Release(k, notified) =>
        ReleaseLosesNoWakeup(s, k, notified);
      case ReleaseNull =>
      case WakeUp(t, timedOut) =>
        ChangeLosesNoWakeup(s, t, Unnotified(timedOut));
      case DeadlinePasses(t) =>
        ChangeLosesNoWakeup(s, t, Notified(true));
    }
  }

  /** A thread that takes a connection was not asleep, and uses up at most its own notification. */
  lemma PopLosesNoWakeup(s: State, t: Thread)
    requires s.stack != [] && !IsBlocked(s, t) && NoLostWakeup(s)
    ensures NoLostWakeup(Popped(s, t))
  {
    var s' := Popped(s, t);
    assert NotifiedThreads(s') == NotifiedThreads(s) - {t};
    assert forall u :: IsBlocked(s', u) ==> IsBlocked(s, u);
  }

  /** Coming out of the sleep without a notification, or late after one, changes nothing for the others. */
  lemma ChangeLosesNoWakeup(s: State, t: Thread, waiter: Waiter)
    requires t in s.waiters && !waiter.Blocked? && (waiter.Notified? <==> s.waiters[t].Notified?) && NoLostWakeup(s)
    ensures NoLostWakeup(s.(waiters := s.waiters[t := waiter]))
  {
    var s' := s.(waiters := s.waiters[t := waiter]);
    assert NotifiedThreads(s') == NotifiedThreads(s);
    assert forall u :: IsBlocked(s', u) ==> IsBlocked(s, u);
  }

  /** Each released connection comes with a further notified thread, or nobody is asleep. */
  lemma ReleaseLosesNoWakeup(s: State, k: nat, notified: Option<Thread>)
    requires Enabled(s, Release(k, notified)) && NoLostWakeup(s)
    ensures NoLostWakeup(Apply(s, Release(k, notified)))
  {
    var s' := Apply(s, Release(k, notified));
    if notified.Some? {
      NotifiesOneMore(s.waiters, notified.value, s, s');
      assert IsBlocked(s, notified.value);
    } else {
      assert s'.waiters == s.waiters;
      assert forall u :: IsBlocked(s', u) ==> IsBlocked(s, u);
    }
  }

  lemma NotifiesOneMore(waiters: map<Thread, Waiter>, t: Thread, s: State, s': State)
    requires s.waiters == waiters && s'.waiters == waiters[t := Notified(false)] && IsBlocked(s, t)
    ensures |NotifiedThreads(s')| == |NotifiedThreads(s)| + 1
  {
    assert NotifiedThreads(s') == NotifiedThreads(s) + {t} && t !in NotifiedThreads(s);
  }

  // ---------- whole runs ----------

  function PoolOf(poolSize: int): multiset<Connection> {
    multiset(Initial(poolSize).stack)
  }

  lemma {:induction false} RunKeeps(s: State, steps: seq<Step>, all: multiset<Connection>)
    requires IsRun(s, steps) && Conserved(s, all) && NoLostWakeup(s)
    ensures Conserved(RunFrom(s, steps), all) && NoLostWakeup(RunFrom(s, steps))
    decreases |steps|
  {
    if steps != [] {
      StepConserves(s, steps[0], all);
      StepLosesNoWakeup(s, steps[0]);
      RunKeeps(Apply(s, steps[0]), steps[1..], all);
    }
  }

  /** After any run no connection is lost, made up, or owned twice, and no wakeup is lost. */
  lemma PoolInvariant(poolSize: int, steps: seq<Step>)
    requires IsRun(Initial(poolSize), steps)
    ensures var s := RunFrom(Initial(poolSize), steps);
            && Conserved(s, PoolOf(poolSize))
            && |s.stack| + |s.held| == (if poolSize > 0 then poolSize else 0)
            && NoLostWakeup(s)
            && (forall i, j | 0 <= i < j < |s.stack| :: s.stack[i] != s.stack[j])
            && (forall i, j | 0 <= i < j < |s.held| :: s.held[i].connection != s.held[j].connection)
            && (forall i, j | 0 <= i < |s.stack| && 0 <= j < |s.held| :: s.stack[i] != s.held[j].connection)
  {
    var s := RunFrom(Initial(poolSize), steps);
    RunKeeps(Initial(poolSize), steps, PoolOf(poolSize));
    NumberedOnce(Initial(poolSize).stack);
    OwnedOnce(s, PoolOf(poolSize));
  }

  lemma {:induction false} NumberedOnce(stack: seq<Connection>)
    requires forall i | 0 <= i < |stack| :: stack[i] == i
    ensures forall c :: multiset(stack)[c] <= 1
  {
    if stack != [] {
      var last := |stack| - 1;
      NumberedOnce(stack[..last]);
      assert stack == stack[..last] + [stack[last]];
      assert stack[last] !in stack[..last];
    }
  }

  lemma DifferentWhenOnce(q: seq<Connection>)
    requires forall c :: multiset(q)[c] <= 1
    ensures forall i, j | 0 <= i < j < |q| :: q[i] != q[j]
  {
    forall i, j | 0 <= i < j < |q| ensures q[i] != q[j] {
      assert q == q[..j] + q[j..];
      assert multiset(q) == multiset(q[..j]) + multiset(q[j..]);
      assert q[i] == q[..j][i] && q[j] == q[j..][0];
      assert q[i] in multiset(q[..j]) && q[j] in multiset(q[j..]);
      assert multiset(q)[q[j]] <= 1;
    }
  }

  lemma OwnedOnce(s: State, all: multiset<Connection>)
    requires Conserved(s, all) && forall c :: all[c] <= 1
    ensures forall i, j | 0 <= i < j < |s.stack| :: s.stack[i] != s.stack[j]
    ensures forall i, j | 0 <= i < j < |s.held| :: s.held[i].connection != s.held[j].connection
    ensures forall i, j | 0 <= i < |s.stack| && 0 <= j < |s.held| :: s.stack[i] != s.held[j].connection
  {
    var q := s.stack + Owned(s.held);
    assert multiset(q) == all;
    DifferentWhenOnce(q);
    var size := |s.stack|;
    assert forall i | 0 <= i < size :: s.stack[i] == q[i];
    assert forall j | 0 <= j < |s.held| :: s.held[j].connection == q[size + j];
  }

  // ---------- what acquire answers ----------

  /**
   * A thread under the mutex gets a connection exactly when one is idle, and it is the one that its guard records and
   * that leaves the stack; otherwise it throws exactly if it came back by its deadline, and else goes to sleep.
   */
  lemma AcquireAnswers(s: State, e: Step)
    requires Enabled(s, e)
    ensures var (answer, s') := (OutcomeOf(s, e), Apply(s, e));
            && (answer.Continues? <==> !e.Enter? && !e.Resume?)
            && (e.Enter? || e.Resume? ==>
                  && (answer.Acquired? <==> s.stack != [])
                  && (answer.Acquired? ==>
                        && s.stack == s'.stack + [answer.connection]
                        && s'.held == s.held + [Guard(e.thread, answer.connection)]
                        && s'.waiters == s.waiters - {e.thread})
                  && (answer.Throws? <==> s.stack == [] && e.Resume? && s.waiters[e.thread].timedOut)
                  && (answer.Throws? ==> s' == s.(waiters := s.waiters - {e.thread}))
                  && (answer.Waits? ==> s' == s.(waiters := s.waiters[e.thread := Blocked])))
  {
  }

  predicate IsOwned(s: State, c: Connection) {
    exists k | 0 <= k < |s.held| :: s.held[k].connection == c
  }

  /** After any run, a connection that is handed out was idle and owned by nobody, and is idle no longer. */
  lemma HandedOutOnce(poolSize: int, steps: seq<Step>, e: Step)
    requires IsRun(Initial(poolSize), steps) && Enabled(RunFrom(Initial(poolSize), steps), e)
    ensures var s := RunFrom(Initial(poolSize), steps);
            var answer := OutcomeOf(s, e);
            answer.Acquired? ==>
              && answer.connection in s.stack && !IsOwned(s, answer.connection)
              && answer.connection !in Apply(s, e).stack && IsOwned(Apply(s, e), answer.connection)
  {
    hide Conserved;
    var s := RunFrom(Initial(poolSize), steps);
    PoolInvariant(poolSize, steps);
    AcquireAnswers(s, e);
    StepConserves(s, e, PoolOf(poolSize));
    NumberedOnce(Initial(poolSize).stack);
    OwnedOnce(Apply(s, e), PoolOf(poolSize));
    if OutcomeOf(s, e).Acquired? {
      assert Apply(s, e).held[|s.held|].connection == OutcomeOf(s, e).connection;
      assert s.stack[|s.stack| - 1] == OutcomeOf(s, e).connection;
    }
  }

  /** Some step of the run puts the connection back. */
  predicate Releases(s: State, steps: seq<Step>, c: Connection)
    requires IsRun(s, steps)
    decreases |steps|
  {
    steps != [] &&
    ((steps[0].Release? && s.held[steps[0].guard].connection == c) || Releases(Apply(s, steps[0]), steps[1..], c))
  }

  lemma {:induction false} OwnedUntilReleased(s: State, steps: seq<Step>, c: Connection)
    requires IsRun(s, steps) && IsOwned(s, c) && !Releases(s, steps, c)
    ensures IsOwned(RunFrom(s, steps), c)
    decreases |steps|
  {
    if steps != [] {
      StaysOwned(s, steps[0], c);
      OwnedUntilReleased(Apply(s, steps[0]), steps[1..], c);
    }
  }

  lemma StaysOwned(s: State, e: Step, c: Connection)
    requires Enabled(s, e) && IsOwned(s, c) && !(e.Release? && s.held[e.guard].connection == c)
    ensures IsOwned(Apply(s, e), c)
  {
    var k :| 0 <= k < |s.held| && s.held[k].connection == c;
    var held := Apply(s, e).held;
    if e.Release? && k > e.guard {
      assert held[k - 1] == s.held[k];
    } else {
      assert held[k] == s.held[k];
    }
  }

  /** Between two steps that hand out the same connection there is one that puts it back. */
  lemma ReleasedInBetween(poolSize: int, before: seq<Step>, first: Step, between: seq<Step>, second: Step)
    requires IsRun(Initial(poolSize), before)
    requires Enabled(RunFrom(Initial(poolSize), before), first)
    requires IsRun(Apply(RunFrom(Initial(poolSize), before), first), between)
    requires Enabled(RunFrom(Apply(RunFrom(Initial(poolSize), before), first), between), second)
    ensures var s := RunFrom(Initial(poolSize), before);
            var s' := RunFrom(Apply(s, first), between);
            OutcomeOf(s, first).Acquired? && OutcomeOf(s', second) == OutcomeOf(s, first) ==>
              Releases(Apply(s, first), between, OutcomeOf(s, first).connection)
  {
    hide Conserved;
    var all := PoolOf(poolSize);
    var s := RunFrom(Initial(poolSize), before);
    var s' := RunFrom(Apply(s, first), between);
    if OutcomeOf(s, first).Acquired? && OutcomeOf(s', second) == OutcomeOf(s, first) {
      var c := OutcomeOf(s, first).connection;
      HandedOutOnce(poolSize, before, first);
      KeptThroughout(poolSize, before, first, between);
      OwnedOnce(s', all);
      AcquireAnswers(s', second);
      assert s'.stack[|s'.stack| - 1] == c;
      if !Releases(Apply(s, first), between, c) {
        OwnedUntilReleased(Apply(s, first), between, c);
        assert false;
      }
    }
  }

  lemma KeptThroughout(poolSize: int, before: seq<Step>, first: Step, between: seq<Step>)
    requires IsRun(Initial(poolSize), before)
    requires Enabled(RunFrom(Initial(poolSize), before), first)
    requires IsRun(Apply(RunFrom(Initial(poolSize), before), first), between)
    ensures Conserved(RunFrom(Apply(RunFrom(Initial(poolSize), before), first), between), PoolOf(poolSize))
    ensures forall c :: PoolOf(poolSize)[c] <= 1
  {
    var all := PoolOf(poolSize);
    var s := RunFrom(Initial(poolSize), before);
    RunKeeps(Initial(poolSize), before, all);
    StepConserves(s, first, all);
    StepLosesNoWakeup(s, first);
    RunKeeps(Apply(s, first), between, all);
    NumberedOnce(Initial(poolSize).stack);
  }

  /** If a thread still sleeps when every woken thread has run, then every connection is in use. */
  lemma SleepersMeanExhaustion(poolSize: int, steps: seq<Step>, t: Thread)
    requires IsRun(Initial(poolSize), steps)
    requires IsBlocked(RunFrom(Initial(poolSize), steps), t)
    requires NotifiedThreads(RunFrom(Initial(poolSize), steps)) == {}
    ensures |RunFrom(Initial(poolSize), steps).held| == if poolSize > 0 then poolSize else 0
  {
    PoolInvariant(poolSize, steps);
  }

  /** `acquire` gives up only at a moment when every connection is in use. */
  lemma ThrowsOnlyWhenExhausted(poolSize: int, steps: seq<Step>, e: Step)
    requires IsRun(Initial(poolSize), steps)
    requires Enabled(RunFrom(Initial(poolSize), steps), e) && OutcomeOf(RunFrom(Initial(poolSize), steps), e) == Throws
    ensures |RunFrom(Initial(poolSize), steps).held| == if poolSize > 0 then poolSize else 0
    ensures e.Resume? && RunFrom(Initial(poolSize), steps).waiters[e.thread].timedOut
  {
    PoolInvariant(poolSize, steps);
  }

  /** Whether the deadline of the wait that `t` is in has passed: what the last of the steps that decide it says. */
  predicate Late(steps: seq<Step>, t: Thread, before: bool) {
    if steps == [] then before
    else
      var now := match steps[0]
                 case Enter(u) => u != t && before
                 case Resume(u) => u != t && before
                 case WakeUp(u, timedOut) => if u == t then timedOut else before
                 case DeadlinePasses(u) => u == t || before
                 case Release(_, notified) => notified != Some(t) && before
                 case ReleaseNull => before;
      Late(steps[1..], t, now)
  }

  predicate IsLate(s: State, t: Thread) {
    t in s.waiters && !s.waiters[t].Blocked? && s.waiters[t].timedOut
  }

  lemma {:induction false} LateIsTimedOut(s: State, steps: seq<Step>, t: Thread)
    requires IsRun(s, steps)
    ensures IsLate(RunFrom(s, steps), t) <==> Late(steps, t, IsLate(s, t))
    decreases |steps|
  {
    if steps != [] {
      LateIsTimedOut(Apply(s, steps[0]), steps[1..], t);
    }
  }

  /** In every run, `acquire` throws exactly when it comes back to an empty stack and its deadline has passed. */
  lemma ThrowsExactlyWhenLate(poolSize: int, steps: seq<Step>, t: Thread)
    requires IsRun(Initial(poolSize), steps) && Enabled(RunFrom(Initial(poolSize), steps), Resume(t))
    ensures var s := RunFrom(Initial(poolSize), steps);
            OutcomeOf(s, Resume(t)) == Throws <==> s.stack == [] && Late(steps, t, false)
  {
    LateIsTimedOut(Initial(poolSize), steps, t);
  }

  /** The connection released last is handed out first. */
  lemma LastReleasedIsTakenFirst(s: State, e: Step, t: Thread)
    requires e.Release? && Enabled(s, e) && Enabled(Apply(s, e), Enter(t))
    ensures OutcomeOf(Apply(s, e), Enter(t)) == Acquired(s.held[e.guard].connection)
    ensures Apply(Apply(s, e), Enter(t)).stack == s.stack
  {
    var released := s.held[e.guard].connection;
    assert (s.stack + [released])[..|s.stack|] == s.stack;
  }

  // ---------- few threads ----------

  predicate OwnsNothing(s: State, t: Thread) {
    forall k | 0 <= k < |s.held| :: s.held[k].owner != t
  }

  predicate KeepsTo(s: State, e: Step, threads: set<Thread>) {
    e.Enter? ==> e.thread in threads && OwnsNothing(s, e.thread)
  }

  /** Every step keeps to a set of threads of which none acquires while it owns a connection. */
  ghost predicate OneEach(s: State, steps: seq<Step>, threads: set<Thread>)
    requires IsRun(s, steps)
    decreases |steps|
  {
    steps == [] || (KeepsTo(s, steps[0], threads) && OneEach(Apply(s, steps[0]), steps[1..], threads))
  }

  predicate OwnersDiffer(s: State, threads: set<Thread>) {
    && (forall k | 0 <= k < |s.held| :: s.held[k].owner in threads)
    && (forall j, k | 0 <= j < k < |s.held| :: s.held[j].owner != s.held[k].owner)
  }

  /** Pigeonhole: a further thread finds fewer owners than threads. */
  lemma {:induction false} FewOwners(held: seq<Guard>, threads: set<Thread>)
    requires forall k | 0 <= k < |held| :: held[k].owner in threads
    requires forall j, k | 0 <= j < k < |held| :: held[j].owner != held[k].owner
    ensures |held| <= |threads|
    ensures forall t | t in threads && (forall k | 0 <= k < |held| :: held[k].owner != t) :: |held| < |threads|
  {
    if held != [] {
      FewOwners(held[1..], threads - {held[0].owner});
      forall t | t in threads && (forall k | 0 <= k < |held| :: held[k].owner != t) ensures |held| < |threads| {
        assert held[0].owner != t;
        assert t in threads - {held[0].owner};
        assert forall k | 0 <= k < |held[1..]| :: held[1..][k].owner != t;
      }
    }
  }

  lemma {:induction false} DisciplinedRun(s: State, steps: seq<Step>, threads: set<Thread>, all: multiset<Connection>)
    requires IsRun(s, steps) && OneEach(s, steps, threads)
    requires Conserved(s, all) && |threads| <= |all|
    requires OwnersDiffer(s, threads) && s.waiters == map[]
    ensures RunFrom(s, steps).waiters == map[] && OwnersDiffer(RunFrom(s, steps), threads)
    ensures Conserved(RunFrom(s, steps), all)
    decreases |steps|
  {
    if steps != [] {
      DisciplinedStep(s, steps[0], threads, all);
      DisciplinedRun(Apply(s, steps[0]), steps[1..], threads, all);
    }
  }

  lemma DisciplinedStep(s: State, e: Step, threads: set<Thread>, all: multiset<Connection>)
    requires Enabled(s, e) && Conserved(s, all) && |threads| <= |all|
    requires OwnersDiffer(s, threads) && s.waiters == map[]
    requires KeepsTo(s, e, threads)
    ensures OwnersDiffer(Apply(s, e), threads) && Apply(s, e).waiters == map[] && Conserved(Apply(s, e), all)
    ensures OutcomeOf(s, e) != Waits && OutcomeOf(s, e) != Throws
  {
    hide Owned;
    StepConserves(s, e, all);
    if e.Enter? {
      FewOwners(s.held, threads);
      assert |s.stack| + |s.held| == |all|;
    }
  }

  /** With no more threads than connections and one connection each, no thread ever waits, however the run goes on. */
  lemma EnoughConnections(poolSize: int, steps: seq<Step>, threads: set<Thread>, e: Step)
    requires |threads| <= poolSize
    requires IsRun(Initial(poolSize), steps) && OneEach(Initial(poolSize), steps, threads)
    requires var s := RunFrom(Initial(poolSize), steps); Enabled(s, e) && KeepsTo(s, e, threads)
    ensures RunFrom(Initial(poolSize), steps).waiters == map[]
    ensures var r := OutcomeOf(RunFrom(Initial(poolSize), steps), e); r != Waits && r != Throws
  {
    var s := Initial(poolSize);
    assert Conserved(s, PoolOf(poolSize)) && |PoolOf(poolSize)| == poolSize;
    DisciplinedRun(s, steps, threads, PoolOf(poolSize));
    DisciplinedStep(RunFrom(s, steps), e, threads, PoolOf(poolSize));
  }
}
