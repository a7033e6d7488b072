/**
  The thread pool as a transition system: workers, any number of `enqueue` calls and the destructor
  interleave at the mutex, the condition variable and the stop flag.

  Call `j` of `enqueue` submits task `j`.
 */
module ThreadPool {

  datatype Worker =
    | AtLoop              // about to lock the mutex
    | Checking            // holds the mutex, about to evaluate the wait predicate
    | GoingToSleep        // holds the mutex, found the predicate false
    | Asleep              // blocked in the condition variable, mutex released
    | Woken               // notified, about to lock the mutex again
    | Running(task: nat)  // runs a task outside the mutex
    | Exited

  datatype Client =
    | Arriving
    | Inside              // holds the mutex, about to look at the stop flag
    | Pushed              // holds the mutex, task queued
    | MustNotify          // released the mutex, notify_one not yet called
    | Returned
    | Refused             // enqueue on stopped ThreadPool

  datatype Destructor =
    | NotCalled
    | Stopping            // holds the mutex, about to set the stop flag
    | StopSet             // holds the mutex, flag set
    | MustNotifyAll
    | Joining
    | Joined

  datatype Holder = Free | Worker(i: nat) | Client(j: nat) | Destructor

  datatype State = State(
    holder: Holder,
    queue: seq<nat>,
    stop: bool,
    workers: seq<Worker>,
    clients: seq<Client>,
    dtor: Destructor,
    // history
    accepted: seq<nat>,   // tasks in the order they were queued
    taken: seq<nat>,      // tasks in the order they were popped
    finished: seq<nat>    // tasks in the order they ended
  )

  datatype Action =
    | WorkerLocks(i: nat)
    | WorkerChecks(i: nat)
    | WorkerSleeps(i: nat)
    | WorkerEnds(i: nat)
    | SpuriousWakeup(i: nat)
    | ClientLocks(j: nat)
    | ClientPushes(j: nat)
    | ClientUnlocks(j: nat)
    | ClientNotifies(j: nat, woken: int)   // the worker woken, or -1 when none was asleep
    | DestructorLocks
    | DestructorStops
    | DestructorUnlocks
    | DestructorNotifies
    | DestructorJoins

  function Initial(threads: nat, calls: nat): State {
    State(Free, [], false, seq(threads, i => AtLoop), seq(calls, j => Arriving), NotCalled, [], [], [])
  }

  predicate NoneAsleep(s: State) {
    forall i :: 0 <= i < |s.workers| ==> s.workers[i] != Asleep
  }

  predicate AllExited(s: State) {
    forall i :: 0 <= i < |s.workers| ==> s.workers[i] == Exited
  }

  predicate Enabled(s: State, a: Action) {
    match a
    case WorkerLocks(i) => i < |s.workers| && s.workers[i] in {AtLoop, Woken} && s.holder == Free
    case WorkerChecks(i) => i < |s.workers| && s.workers[i] == Checking
    case WorkerSleeps(i) => i < |s.workers| && s.workers[i] == GoingToSleep
    case WorkerEnds(i) => i < |s.workers| && s.workers[i].Running?
    case SpuriousWakeup(i) => i < |s.workers| && s.workers[i] == Asleep
    case ClientLocks(j) => j < |s.clients| && s.clients[j] == Arriving && s.holder == Free
    case ClientPushes(j) => j < |s.clients| && s.clients[j] == Inside
    case ClientUnlocks(j) => j < |s.clients| && s.clients[j] == Pushed
    case ClientNotifies(j, w) => j < |s.clients| && s.clients[j] == MustNotify
      && (if 0 <= w < |s.workers| then s.workers[w] == Asleep else w == -1 && NoneAsleep(s))
    case DestructorLocks => s.dtor == NotCalled && s.holder == Free
    case DestructorStops => s.dtor == Stopping
    case DestructorUnlocks => s.dtor == StopSet
    case DestructorNotifies => s.dtor == MustNotifyAll
    case DestructorJoins => s.dtor == Joining && AllExited(s)
  }

  function SetWorker(s: State, i: nat, w: Worker): State
    requires i < |s.workers|
  {
    s.(workers := s.workers[i := w])
  }

  function SetClient(s: State, j: nat, c: Client): State
    requires j < |s.clients|
  {
    s.(clients := s.clients[j := c])
  }

  /** The body of the worker loop from the wait predicate to the end of the locked block. */
  function Check(s: State, i: nat): State
    requires i < |s.workers|
  {
    if !s.stop && s.queue == [] then SetWorker(s, i, GoingToSleep)
    else if s.stop && s.queue == [] then SetWorker(s, i, Exited).(holder := Free)
    else SetWorker(s, i, Running(s.queue[0])).(holder := Free, queue := s.queue[1..], taken := s.taken + [s.queue[0]])
  }

  function Apply(s: State, a: Action): State
    requires Enabled(s, a)
  {
    match a
    case WorkerLocks(i) => SetWorker(s, i, Checking).(holder := Worker(i))
    case WorkerChecks(i) => Check(s, i)
    case WorkerSleeps(i) => SetWorker(s, i, Asleep).(holder := Free)
    case WorkerEnds(i) => SetWorker(s, i, AtLoop).(finished := s.finished + [s.workers[i].task])
    case SpuriousWakeup(i) => SetWorker(s, i, Woken)
    case ClientLocks(j) => SetClient(s, j, Inside).(holder := Client(j))
    case ClientPushes(j) =>
      if s.stop then SetClient(s, j, Refused).(holder := Free)
      else SetClient(s, j, Pushed).(queue := s.queue + [j], accepted := s.accepted + [j])
    case ClientUnlocks(j) => SetClient(s, j, MustNotify).(holder := Free)
    case ClientNotifies(j, w) =>
      var s' := SetClient(s, j, Returned);
      if w >= 0 then SetWorker(s', w, Woken) else s'
    case DestructorLocks => s.(dtor := Stopping, holder := Destructor)
    case DestructorStops => s.(dtor := StopSet, stop := true)
    case DestructorUnlocks => s.(dtor := MustNotifyAll, holder := Free)
    case DestructorNotifies =>
      s.(dtor := Joining, workers := seq(|s.workers|, i requires 0 <= i < |s.workers| =>
        if s.workers[i] == Asleep then Woken else s.workers[i]))
    case DestructorJoins => s.(dtor := Joined)
  }

  /** `s'` is reached from `s` by performing the actions in order. */
  ghost predicate Execution(s: State, actions: seq<Action>, s': State)
    decreases |actions|
  {
    if actions == [] then s' == s
    else Enabled(s, actions[0]) && Execution(Apply(s, actions[0]), actions[1..], s')
  }

  // ---------- what every step keeps ----------

  /** The mutex is held by exactly the thread that is inside a locked block. */
  ghost predicate MutexHeld(s: State) {
    && (forall i :: 0 <= i < |s.workers| ==> (s.workers[i] in {Checking, GoingToSleep} <==> s.holder == Worker(i)))
    && (forall j :: 0 <= j < |s.clients| ==> (s.clients[j] in {Inside, Pushed} <==> s.holder == Client(j)))
    && (s.dtor in {Stopping, StopSet} <==> s.holder == Destructor)
    && (s.holder.Worker? ==> s.holder.i < |s.workers|)
    && (s.holder.Client? ==> s.holder.j < |s.clients|)
  }

  /** What the stop flag tells about the others. */
  ghost predicate StopFlag(s: State) {
    && (s.stop <==> s.dtor in {StopSet, MustNotifyAll, Joining, Joined})
    && (forall i :: 0 <= i < |s.workers| && s.workers[i] == Exited ==> s.stop && s.queue == [])
    && (forall i :: 0 <= i < |s.workers| && s.workers[i] == GoingToSleep ==> !s.stop && s.queue == [])
    && (forall j :: 0 <= j < |s.clients| && s.clients[j] == Refused ==> s.stop)
    && (s.dtor in {Joining, Joined} ==> NoneAsleep(s))
    && (s.dtor == Joined ==> AllExited(s))
  }

  lemma MutexKept(s: State, a: Action)
    requires MutexHeld(s) && Enabled(s, a)
    ensures MutexHeld(Apply(s, a))
  {
    if a.WorkerLocks? || a.WorkerChecks? || a.WorkerSleeps? || a.WorkerEnds? || a.SpuriousWakeup? {
      MutexKeptByWorker(s, a);
    } else if a.ClientLocks? || a.ClientPushes? || a.ClientUnlocks? || a.ClientNotifies? {
      MutexKeptByClient(s, a);
    } else {
      MutexKeptByDestructor(s, a);
    }
  }

  lemma MutexKeptByWorker(s: State, a: Action)
    requires MutexHeld(s) && Enabled(s, a)
    requires a.WorkerLocks? || a.WorkerChecks? || a.WorkerSleeps? || a.WorkerEnds? || a.SpuriousWakeup?
    ensures MutexHeld(Apply(s, a))
  {
  }

  lemma MutexKeptByClient(s: State, a: Action)
    requires MutexHeld(s) && Enabled(s, a)
    requires a.ClientLocks? || a.ClientPushes? || a.ClientUnlocks? || a.ClientNotifies?
    ensures MutexHeld(Apply(s, a))
  {
  }

  lemma MutexKeptByDestructor(s: State, a: Action)
    requires MutexHeld(s) && Enabled(s, a)
    requires a.DestructorLocks? || a.DestructorStops? || a.DestructorUnlocks? || a.DestructorNotifies? || a.DestructorJoins?
    ensures MutexHeld(Apply(s, a))
  {
  }

  lemma StopFlagKept(s: State, a: Action)
    requires MutexHeld(s) && StopFlag(s) && Enabled(s, a)
    ensures StopFlag(Apply(s, a))
  {
    if a.WorkerLocks? || a.WorkerChecks? || a.WorkerSleeps? || a.WorkerEnds? || a.SpuriousWakeup? {
      StopFlagKeptByWorker(s, a);
    } else if a.ClientLocks? || a.ClientPushes? || a.ClientUnlocks? || a.ClientNotifies? {
      StopFlagKeptByClient(s, a);
    } else {
      StopFlagKeptByDestructor(s, a);
    }
  }

  lemma StopFlagKeptByWorker(s: State, a: Action)
    requires MutexHeld(s) && StopFlag(s) && Enabled(s, a)
    requires a.WorkerLocks? || a.WorkerChecks? || a.WorkerSleeps? || a.WorkerEnds? || a.SpuriousWakeup?
    ensures StopFlag(Apply(s, a))
  {
  }

  lemma StopFlagKeptByClient(s: State, a: Action)
    requires MutexHeld(s) && StopFlag(s) && Enabled(s, a)
    requires a.ClientLocks? || a.ClientPushes? || a.ClientUnlocks? || a.ClientNotifies?
    ensures StopFlag(Apply(s, a))
  {
  }

  lemma StopFlagKeptByDestructor(s: State, a: Action)
    requires MutexHeld(s) && StopFlag(s) && Enabled(s, a)
    requires a.DestructorLocks? || a.DestructorStops? || a.DestructorUnlocks? || a.DestructorNotifies? || a.DestructorJoins?
    ensures StopFlag(Apply(s, a))
  {
  }

  // ---------- every accepted task, in order, once ----------

  /** Tasks leave the queue in the order they were accepted, and call `j` was accepted at most once. */
  ghost predicate QueueHistory(s: State) {
    && s.accepted == s.taken + s.queue
    && (forall p :: 0 <= p < |s.accepted| ==>
          s.accepted[p] < |s.clients| && s.clients[s.accepted[p]] in {Pushed, MustNotify, Returned})
    && (forall j :: 0 <= j < |s.clients| && s.clients[j] in {Pushed, MustNotify, Returned} ==> j in s.accepted)
    && (forall p, q :: 0 <= p < q < |s.accepted| ==> s.accepted[p] != s.accepted[q])
  }

  lemma QueueHistoryKept(s: State, a: Action)
    requires QueueHistory(s) && Enabled(s, a)
    ensures QueueHistory(Apply(s, a))
  {
    if a.ClientPushes? && !s.stop {
      PushKeepsQueueHistory(s, a.j);
    } else if a.ClientLocks? || a.ClientPushes? || a.ClientUnlocks? || a.ClientNotifies? {
      OtherCallsKeepQueueHistory(s, a);
    } else if a.WorkerChecks? && s.queue != [] {
      PopKeepsQueueHistory(s, a);
    } else {
      var s' := Apply(s, a);
      assert s'.clients == s.clients && s'.accepted == s.accepted && s'.taken == s.taken && s'.queue == s.queue;
    }
  }

  lemma PushKeepsQueueHistory(s: State, j: nat)
    requires QueueHistory(s) && Enabled(s, ClientPushes(j)) && !s.stop
    ensures QueueHistory(Apply(s, ClientPushes(j)))
  {
    var s' := Apply(s, ClientPushes(j));
    assert s'.accepted == s.accepted + [j];
    assert s'.taken + s'.queue == s.taken + s.queue + [j];
    assert j !in s.accepted;
  }

  lemma OtherCallsKeepQueueHistory(s: State, a: Action)
    requires QueueHistory(s) && Enabled(s, a)
    requires a.ClientLocks? || (a.ClientPushes? && s.stop) || a.ClientUnlocks? || a.ClientNotifies?
    ensures QueueHistory(Apply(s, a))
  {
  }

  lemma PopKeepsQueueHistory(s: State, a: Action)
    requires QueueHistory(s) && Enabled(s, a) && a.WorkerChecks? && s.queue != []
    ensures QueueHistory(Apply(s, a))
  {
    var s' := Apply(s, a);
    assert s'.taken + s'.queue == s.taken + s.queue;
  }

  /** How many workers are running task `t`. */
  function Busy(ws: seq<Worker>, t: nat): nat {
    if ws == [] then 0 else Busy(ws[..|ws| - 1], t) + Load(ws[|ws| - 1], t)
  }

  function Load(w: Worker, t: nat): nat {
    if w == Running(t) then 1 else 0
  }

  lemma {:induction false} BusyAfterUpdate(ws: seq<Worker>, i: nat, w: Worker, t: nat)
    requires i < |ws|
    ensures Busy(ws[i := w], t) + Load(ws[i], t) == Busy(ws, t) + Load(w, t)
    decreases |ws|
  {
    var n := |ws| - 1;
    if i < n {
      BusyAfterUpdate(ws[..n], i, w, t);
      assert ws[i := w][..n] == ws[..n][i := w];
    } else {
      assert ws[i := w][..n] == ws[..n];
    }
  }

  lemma {:induction false} BusyAfterWakeAll(ws: seq<Worker>, ws': seq<Worker>, t: nat)
    requires |ws'| == |ws| && forall i :: 0 <= i < |ws| ==> ws'[i] == if ws[i] == Asleep then Woken else ws[i]
    ensures Busy(ws', t) == Busy(ws, t)
    decreases |ws|
  {
    if ws != [] {
      BusyAfterWakeAll(ws[..|ws| - 1], ws'[..|ws| - 1], t);
    }
  }

  /** How often `t` was popped is how often it ended plus how many workers run it now. */
  ghost predicate RunHistory(s: State) {
    forall t: nat :: multiset(s.taken)[t] == multiset(s.finished)[t] + Busy(s.workers, t)
  }

  lemma RunHistoryKept(s: State, a: Action)
    requires RunHistory(s) && Enabled(s, a)
    ensures RunHistory(Apply(s, a))
  {
    forall t: nat
      ensures multiset(Apply(s, a).taken)[t] == multiset(Apply(s, a).finished)[t] + Busy(Apply(s, a).workers, t)
    {
      RunHistoryOfTask(s, a, t);
    }
  }

  lemma CountAfterAppend(xs: seq<nat>, x: nat, t: nat)
    ensures multiset(xs + [x])[t] == multiset(xs)[t] + if x == t then 1 else 0
  {
  }

  /** What a worker pops it then runs, and what it runs it then ends. */
  lemma RunHistoryOfTask(s: State, a: Action, t: nat)
    requires multiset(s.taken)[t] == multiset(s.finished)[t] + Busy(s.workers, t) && Enabled(s, a)
    ensures multiset(Apply(s, a).taken)[t] == multiset(Apply(s, a).finished)[t] + Busy(Apply(s, a).workers, t)
  {
    var s' := Apply(s, a);
    if a.WorkerChecks? {
      BusyAfterUpdate(s.workers, a.i, s'.workers[a.i], t);
      if s.queue != [] {
        CountAfterAppend(s.taken, s.queue[0], t);
      }
    } else if a.WorkerEnds? {
      BusyAfterUpdate(s.workers, a.i, s'.workers[a.i], t);
      CountAfterAppend(s.finished, s.workers[a.i].task, t);
    } else {
      RunHistoryElsewhere(s, a, t);
    }
  }

  lemma RunHistoryElsewhere(s: State, a: Action, t: nat)
    requires Enabled(s, a) && !a.WorkerChecks? && !a.WorkerEnds?
    ensures Apply(s, a).taken == s.taken && Apply(s, a).finished == s.finished
    ensures Busy(Apply(s, a).workers, t) == Busy(s.workers, t)
  {
    var s' := Apply(s, a);
    if a.WorkerLocks? || a.WorkerSleeps? || a.SpuriousWakeup? {
      BusyAfterUpdate(s.workers, a.i, s'.workers[a.i], t);
    } else if a.ClientNotifies? && a.woken >= 0 {
      BusyAfterUpdate(s.workers, a.woken, s'.workers[a.woken], t);
    } else if a.DestructorNotifies? {
      BusyAfterWakeAll(s.workers, s'.workers, t);
    }
  }

  // ---------- no lost wakeup ----------

  predicate AllAsleep(s: State) {
    forall i :: 0 <= i < |s.workers| ==> s.workers[i] == Asleep
  }

  /** Calls that queued a task and have not called notify_one yet. */
  function Pending(cs: seq<Client>): nat {
    if cs == [] then 0
    else Pending(cs[..|cs| - 1]) + if cs[|cs| - 1] in {Pushed, MustNotify} then 1 else 0
  }

  lemma {:induction false} PendingAfterUpdate(cs: seq<Client>, j: nat, c: Client)
    requires j < |cs|
    ensures Pending(cs[j := c]) == Pending(cs) + (if c in {Pushed, MustNotify} then 1 else 0)
                                              - (if cs[j] in {Pushed, MustNotify} then 1 else 0)
    decreases |cs|
  {
    var n := |cs| - 1;
    if j < n {
      PendingAfterUpdate(cs[..n], j, c);
      assert cs[j := c][..n] == cs[..n][j := c];
    } else {
      assert cs[j := c][..n] == cs[..n];
    }
  }

  /** With every worker asleep and the pool not stopped, each queued task still has its notification to come. */
  ghost predicate WakeupsComing(s: State) {
    !s.stop && AllAsleep(s) ==> |s.queue| <= Pending(s.clients)
  }

  lemma WakeupsKept(s: State, a: Action)
    requires |s.workers| > 0 && StopFlag(s) && WakeupsComing(s) && Enabled(s, a)
    ensures WakeupsComing(Apply(s, a))
  {
    var s' := Apply(s, a);
    match a
    case ClientLocks(j) => PendingAfterUpdate(s.clients, j, s'.clients[j]);
    case ClientPushes(j) => PendingAfterUpdate(s.clients, j, s'.clients[j]);
    case ClientUnlocks(j) => PendingAfterUpdate(s.clients, j, s'.clients[j]);
    case ClientNotifies(j, w) => assert s'.workers[if w >= 0 then w else 0] != Asleep;
    case WorkerSleeps(i) => assert s.workers[i] == GoingToSleep;
    case WorkerLocks(i) => assert s'.workers[i] != Asleep;
    case WorkerChecks(i) => assert s'.workers[i] != Asleep;
    case WorkerEnds(i) => assert s'.workers[i] != Asleep;
    case SpuriousWakeup(i) => assert s'.workers[i] != Asleep;
    case _ =>
  }

  // ---------- all interleavings ----------

  ghost predicate Good(s: State) {
    && |s.workers| > 0
    && MutexHeld(s) && StopFlag(s)
    && QueueHistory(s) && RunHistory(s)
    && WakeupsComing(s)
  }

  lemma {:induction false} InitiallyNothingRuns(n: nat, t: nat)
    ensures Busy(seq(n, i => AtLoop), t) == 0
    decreases n
  {
    if n > 0 {
      InitiallyNothingRuns(n - 1, t);
      assert seq(n, i => AtLoop)[..n - 1] == seq(n - 1, i => AtLoop);
    }
  }

  lemma InitiallyGood(threads: nat, calls: nat)
    requires threads > 0
    ensures Good(Initial(threads, calls))
  {
    var s := Initial(threads, calls);
    forall t: nat
      ensures multiset(s.taken)[t] == multiset(s.finished)[t] + Busy(s.workers, t)
    {
      InitiallyNothingRuns(threads, t);
    }
    assert s.workers[0] == AtLoop;
  }

  lemma GoodKept(s: State, a: Action)
    requires Good(s) && Enabled(s, a)
    ensures Good(Apply(s, a))
  {
    MutexKept(s, a);
    StopFlagKept(s, a);
    QueueHistoryKept(s, a);
    RunHistoryKept(s, a);
    WakeupsKept(s, a);
  }

  lemma {:induction false} GoodInExecution(s: State, actions: seq<Action>, s': State)
    requires Good(s) && Execution(s, actions, s')
    ensures Good(s')
    decreases |actions|
  {
    if actions != [] {
      GoodKept(s, actions[0]);
      GoodInExecution(Apply(s, actions[0]), actions[1..], s');
    }
  }

  /** Accepted tasks are popped first in, first out, none twice, and each popped one is running or has ended. */
  lemma TakenExactlyOnce(s: State)
    requires Good(s)
    ensures s.taken <= s.accepted && s.accepted[|s.taken|..] == s.queue
    ensures forall p, q :: 0 <= p < q < |s.taken| ==> s.taken[p] != s.taken[q]
    ensures forall t: nat :: t in s.taken ==> multiset(s.finished)[t] + Busy(s.workers, t) == 1
    ensures forall t: nat :: t !in s.taken ==> t !in s.finished && Busy(s.workers, t) == 0
  {
    forall p, q | 0 <= p < q < |s.taken|
      ensures s.taken[p] != s.taken[q]
    {
      assert s.accepted[p] == s.taken[p] && s.accepted[q] == s.taken[q];
    }
    forall t: nat
      ensures multiset(s.taken)[t] == if t in s.taken then 1 else 0
      ensures t in s.finished <==> multiset(s.finished)[t] > 0
    {
      CountInDistinct(s.taken, t);
      assert t in s.finished <==> t in multiset(s.finished);
    }
  }

  lemma {:induction false} CountInDistinct(xs: seq<nat>, t: nat)
    requires forall p, q :: 0 <= p < q < |xs| ==> xs[p] != xs[q]
    ensures multiset(xs)[t] == if t in xs then 1 else 0
    decreases |xs|
  {
    if xs != [] {
      var front, x := xs[..|xs| - 1], xs[|xs| - 1];
      assert xs == front + [x];
      CountInDistinct(front, t);
      CountAfterAppend(front, x, t);
    }
  }

  /** When all workers have exited, every accepted task has run, exactly once. */
  lemma AllRanAtTheEnd(s: State)
    requires Good(s) && AllExited(s)
    ensures multiset(s.finished) == multiset(s.accepted)
    ensures forall t: nat :: t in s.accepted ==> multiset(s.finished)[t] == 1
  {
    TakenExactlyOnce(s);
    assert s.workers[0] == Exited;
    assert s.accepted == s.taken;
    forall t: nat
      ensures Busy(s.workers, t) == 0 && multiset(s.finished)[t] == multiset(s.accepted)[t]
    {
      NobodyBusy(s.workers, t);
    }
  }

  lemma {:induction false} NobodyBusy(ws: seq<Worker>, t: nat)
    requires forall i :: 0 <= i < |ws| ==> !ws[i].Running?
    ensures Busy(ws, t) == 0
    decreases |ws|
  {
    if ws != [] {
      NobodyBusy(ws[..|ws| - 1], t);
    }
  }

  // ---------- the destructor returns ----------

  function WorkerSteps(ws: seq<Worker>): nat {
    if ws == [] then 0
    else WorkerSteps(ws[..|ws| - 1]) + StepsLeft(ws[|ws| - 1])
  }

  function StepsLeft(w: Worker): nat {
    match w
    case Exited => 0
    case Checking => 1
    case Running(_) => 3
    case _ => 2
  }

  function ClientSteps(cs: seq<Client>): nat {
    if cs == [] then 0
    else ClientSteps(cs[..|cs| - 1]) + CallsLeft(cs[|cs| - 1])
  }

  function CallsLeft(c: Client): nat {
    match c
    case Arriving => 4
    case Inside => 3
    case Pushed => 2
    case MustNotify => 1
    case _ => 0
  }

  /** A bound on the steps still possible once the destructor waits for the workers. */
  function Remaining(s: State): nat {
    4 * |s.queue| + WorkerSteps(s.workers) + ClientSteps(s.clients) + if s.dtor == Joining then 1 else 0
  }

  lemma {:induction false} WorkerStepsAfterUpdate(ws: seq<Worker>, i: nat, w: Worker)
    requires i < |ws|
    ensures WorkerSteps(ws[i := w]) == WorkerSteps(ws) + StepsLeft(w) - StepsLeft(ws[i])
    decreases |ws|
  {
    var n := |ws| - 1;
    if i < n {
      WorkerStepsAfterUpdate(ws[..n], i, w);
      assert ws[i := w][..n] == ws[..n][i := w];
    } else {
      assert ws[i := w][..n] == ws[..n];
    }
  }

  lemma {:induction false} ClientStepsAfterUpdate(cs: seq<Client>, j: nat, c: Client)
    requires j < |cs|
    ensures ClientSteps(cs[j := c]) == ClientSteps(cs) + CallsLeft(c) - CallsLeft(cs[j])
    decreases |cs|
  {
    var n := |cs| - 1;
    if j < n {
      ClientStepsAfterUpdate(cs[..n], j, c);
      assert cs[j := c][..n] == cs[..n][j := c];
    } else {
      assert cs[j := c][..n] == cs[..n];
    }
  }

  lemma RemainingDecreases(s: State, a: Action)
    requires StopFlag(s) && s.dtor in {Joining, Joined} && Enabled(s, a)
    ensures Remaining(Apply(s, a)) < Remaining(s) && Apply(s, a).dtor in {Joining, Joined}
  {
    if a.ClientLocks? || a.ClientPushes? || a.ClientUnlocks? || a.ClientNotifies? {
      ClientStepDecreases(s, a);
    } else {
      WorkerStepDecreases(s, a);
    }
  }

  lemma ClientStepDecreases(s: State, a: Action)
    requires StopFlag(s) && s.dtor in {Joining, Joined} && Enabled(s, a)
    requires a.ClientLocks? || a.ClientPushes? || a.ClientUnlocks? || a.ClientNotifies?
    ensures Remaining(Apply(s, a)) < Remaining(s) && Apply(s, a).dtor == s.dtor
  {
    ClientStepsAfterUpdate(s.clients, a.j, Apply(s, a).clients[a.j]);
  }

  lemma WorkerStepDecreases(s: State, a: Action)
    requires StopFlag(s) && s.dtor in {Joining, Joined} && Enabled(s, a)
    requires !a.ClientLocks? && !a.ClientPushes? && !a.ClientUnlocks? && !a.ClientNotifies?
    ensures Remaining(Apply(s, a)) < Remaining(s) && Apply(s, a).dtor in {Joining, Joined}
  {
    if a.WorkerLocks? || a.WorkerChecks? || a.WorkerEnds? {
      WorkerStepsAfterUpdate(s.workers, a.i, Apply(s, a).workers[a.i]);
    }
  }

  /** Whatever the interleaving, at most `Remaining` steps follow once the destructor waits in join. */
  lemma {:induction false} JoinIsBounded(s: State, actions: seq<Action>, s': State)
    requires Good(s) && s.dtor in {Joining, Joined} && Execution(s, actions, s')
    ensures |actions| <= Remaining(s)
    decreases |actions|
  {
    if actions != [] {
      GoodKept(s, actions[0]);
      RemainingDecreases(s, actions[0]);
      JoinIsBounded(Apply(s, actions[0]), actions[1..], s');
    }
  }

  /** Until the join is over some step is possible, so the destructor returns. */
  lemma JoinIsNeverStuck(s: State) returns (a: Action)
    requires Good(s) && s.dtor == Joining
    ensures Enabled(s, a)
  {
    match s.holder
    case Worker(i) =>
      a := if s.workers[i] == Checking then WorkerChecks(i) else WorkerSleeps(i);
    case Client(j) =>
      a := if s.clients[j] == Inside then ClientPushes(j) else ClientUnlocks(j);
    case Destructor =>
      assert false;
    case Free =>
      if AllExited(s) {
        a := DestructorJoins;
      } else {
        var i :| 0 <= i < |s.workers| && s.workers[i] != Exited;
        a := if s.workers[i].Running? then WorkerEnds(i) else WorkerLocks(i);
      }
  }

  // ---------- every reachable state ----------

  /** A state that some interleaving reaches. */
  ghost predicate Reachable(threads: nat, calls: nat, s: State) {
    exists actions :: Execution(Initial(threads, calls), actions, s)
  }

  lemma ReachableIsGood(threads: nat, calls: nat, s: State)
    requires threads > 0 && Reachable(threads, calls, s)
    ensures Good(s)
  {
    var actions :| Execution(Initial(threads, calls), actions, s);
    InitiallyGood(threads, calls);
    GoodInExecution(Initial(threads, calls), actions, s);
  }

  /** Over all interleavings: tasks are popped first in, first out, each popped one is running or has ended, never both or twice. */
  lemma EveryTaskOnce(threads: nat, calls: nat, s: State)
    requires threads > 0 && Reachable(threads, calls, s)
    ensures s.taken <= s.accepted && s.accepted[|s.taken|..] == s.queue
    ensures forall t: nat :: t in s.taken ==> multiset(s.finished)[t] + Busy(s.workers, t) == 1
    ensures forall t: nat :: t !in s.taken ==> t !in s.finished && Busy(s.workers, t) == 0
    ensures AllExited(s) ==> multiset(s.finished) == multiset(s.accepted)
  {
    ReachableIsGood(threads, calls, s);
    TakenExactlyOnce(s);
    if AllExited(s) {
      AllRanAtTheEnd(s);
    }
  }

  /** A call is refused only by a stopped pool; on any other, each call that has left its locked block is accepted, and no other. */
  lemma RefusedOnlyWhenStopped(threads: nat, calls: nat, s: State, j: nat)
    requires threads > 0 && Reachable(threads, calls, s) && j < |s.clients|
    ensures s.clients[j] == Refused ==> s.stop
    ensures j in s.accepted <==> s.clients[j] !in {Arriving, Inside, Refused}
  {
    ReachableIsGood(threads, calls, s);
  }

  /** What one step adds to the histories: at its critical section a call on a pool not stopped is accepted, and nothing else is. */
  lemma StepHistory(s: State, a: Action)
    requires Enabled(s, a)
    ensures Apply(s, a).accepted == s.accepted + if a.ClientPushes? && !s.stop then [a.j] else []
    ensures s.taken <= Apply(s, a).taken && s.finished <= Apply(s, a).finished
    ensures s.stop ==> Apply(s, a).stop
  {
  }

  /** Along every execution the histories only grow, and once the pool is stopped it accepts nothing more. */
  lemma {:induction false} NothingAcceptedAfterStop(s: State, actions: seq<Action>, s': State)
    requires Execution(s, actions, s')
    ensures s.accepted <= s'.accepted && s.taken <= s'.taken && s.finished <= s'.finished
    ensures s.stop ==> s'.stop && s'.accepted == s.accepted
    decreases |actions|
  {
    if actions != [] {
      StepHistory(s, actions[0]);
      NothingAcceptedAfterStop(Apply(s, actions[0]), actions[1..], s');
    }
  }

  /**
    As long as the destructor is not called, the pool comes to rest only when every call has returned, every worker
    sleeps, and the task of every call has been run exactly once.
   */
  lemma QuietPoolIsDone(threads: nat, calls: nat, s: State)
    requires threads > 0 && Reachable(threads, calls, s) && s.dtor == NotCalled
    requires forall a :: Enabled(s, a) ==> a.SpuriousWakeup? || a == DestructorLocks
    ensures AllAsleep(s) && s.queue == []
    ensures forall j :: 0 <= j < |s.clients| ==> s.clients[j] == Returned && multiset(s.finished)[j] == 1
  {
    ReachableIsGood(threads, calls, s);
    QuietMutexIsFree(s);
    QuietWorkersSleep(s);
    QuietCallsReturned(s);
    NonePending(s.clients);
    ReturnedCallsRan(s);
  }

  /** With nothing queued and nothing running, exactly the calls that got past their critical section have had their tasks run, once each. */
  lemma ReturnedCallsRan(s: State)
    requires Good(s) && s.queue == [] && forall i :: 0 <= i < |s.workers| ==> !s.workers[i].Running?
    ensures forall j :: 0 <= j < |s.clients| ==>
      multiset(s.finished)[j] == if s.clients[j] in {Pushed, MustNotify, Returned} then 1 else 0
  {
    TakenExactlyOnce(s);
    assert s.accepted == s.taken;
    forall j | 0 <= j < |s.clients|
      ensures multiset(s.finished)[j] == if s.clients[j] in {Pushed, MustNotify, Returned} then 1 else 0
    {
      NobodyBusy(s.workers, j);
      assert j in s.finished <==> j in multiset(s.finished);
    }
  }

  lemma QuietMutexIsFree(s: State)
    requires Good(s) && s.dtor == NotCalled
    requires forall a :: Enabled(s, a) ==> a.SpuriousWakeup? || a == DestructorLocks
    ensures s.holder == Free
  {
    match s.holder
    case Worker(i) =>
      var a := if s.workers[i] == Checking then WorkerChecks(i) else WorkerSleeps(i);
      assert Enabled(s, a);
    case Client(j) =>
      var a := if s.clients[j] == Inside then ClientPushes(j) else ClientUnlocks(j);
      assert Enabled(s, a);
    case _ =>
  }

  lemma QuietWorkersSleep(s: State)
    requires Good(s) && s.dtor == NotCalled && s.holder == Free
    requires forall a :: Enabled(s, a) ==> a.SpuriousWakeup? || a == DestructorLocks
    ensures AllAsleep(s)
  {
    forall i | 0 <= i < |s.workers|
      ensures s.workers[i] == Asleep
    {
      assert !Enabled(s, WorkerLocks(i)) && !Enabled(s, WorkerEnds(i));
    }
  }

  lemma QuietCallsReturned(s: State)
    requires Good(s) && s.dtor == NotCalled && s.holder == Free && AllAsleep(s)
    requires forall a :: Enabled(s, a) ==> a.SpuriousWakeup? || a == DestructorLocks
    ensures forall j :: 0 <= j < |s.clients| ==> s.clients[j] == Returned
  {
    forall j | 0 <= j < |s.clients|
      ensures s.clients[j] == Returned
    {
      assert !Enabled(s, ClientLocks(j)) && !Enabled(s, ClientNotifies(j, 0));
    }
  }

  lemma {:induction false} NonePending(cs: seq<Client>)
    requires forall j :: 0 <= j < |cs| ==> cs[j] == Returned
    ensures Pending(cs) == 0
    decreases |cs|
  {
    if cs != [] {
      NonePending(cs[..|cs| - 1]);
    }
  }

  /** A worker exits only from a stopped pool with an empty queue, and the queue stays empty from then on. */
  lemma ExitsOnlyWhenStoppedAndEmpty(threads: nat, calls: nat, s: State, i: nat)
    requires threads > 0 && Reachable(threads, calls, s) && i < |s.workers| && s.workers[i] == Exited
    ensures s.stop && s.queue == []
  {
    ReachableIsGood(threads, calls, s);
  }

  /** No lost wakeup: tasks left in the queue while every worker sleeps are covered by notifications still to come. */
  lemma NoLostWakeup(threads: nat, calls: nat, s: State)
    requires threads > 0 && Reachable(threads, calls, s)
    requires !s.stop && AllAsleep(s)
    ensures |s.queue| <= Pending(s.clients)
  {
    ReachableIsGood(threads, calls, s);
  }

  /** Once the destructor waits in join, every interleaving ends, and it ends with all workers gone and all accepted tasks run. */
  lemma DestructorReturns(threads: nat, calls: nat, s: State, actions: seq<Action>, s': State)
    requires threads > 0 && Reachable(threads, calls, s)
    requires s.dtor in {Joining, Joined} && Execution(s, actions, s')
    ensures |actions| <= Remaining(s)
    ensures (forall a :: !Enabled(s', a)) ==>
      s'.dtor == Joined && AllExited(s') && multiset(s'.finished) == multiset(s'.accepted)
    ensures (forall a :: !Enabled(s', a)) ==>
      forall j :: 0 <= j < |s'.clients| ==>
        s'.clients[j] in {Returned, Refused} && multiset(s'.finished)[j] == if s'.clients[j] == Returned then 1 else 0
    ensures s'.accepted == s.accepted
  {
    ReachableIsGood(threads, calls, s);
    JoinIsBounded(s, actions, s');
    GoodInExecution(s, actions, s');
    StaysJoining(s, actions, s');
    NothingAcceptedAfterStop(s, actions, s');
    if forall a :: !Enabled(s', a) {
      if s'.dtor == Joining {
        var a := JoinIsNeverStuck(s');
      }
      AllRanAtTheEnd(s');
      CallsAtTheEnd(s');
    }
  }

  lemma CallsAtTheEnd(s: State)
    requires Good(s) && s.dtor == Joined && forall a :: !Enabled(s, a)
    ensures forall j :: 0 <= j < |s.clients| ==>
      s.clients[j] in {Returned, Refused} && multiset(s.finished)[j] == if s.clients[j] == Returned then 1 else 0
  {
    assert s.workers[0] == Exited;
    forall j | 0 <= j < |s.clients|
      ensures s.clients[j] in {Returned, Refused}
    {
      assert !Enabled(s, ClientLocks(j)) && !Enabled(s, ClientPushes(j)) && !Enabled(s, ClientUnlocks(j));
      assert !Enabled(s, ClientNotifies(j, -1));
      if s.clients[j] == Arriving {
        MutexAtTheEnd(s);
      }
    }
    ReturnedCallsRan(s);
  }

  lemma MutexAtTheEnd(s: State)
    requires Good(s) && s.dtor == Joined && forall a :: !Enabled(s, a)
    ensures s.holder == Free
  {
    assert s.workers[0] == Exited;
    if s.holder.Client? {
      var j := s.holder.j;
      var a := if s.clients[j] == Inside then ClientPushes(j) else ClientUnlocks(j);
      assert Enabled(s, a);
    }
  }

  lemma {:induction false} StaysJoining(s: State, actions: seq<Action>, s': State)
    requires Good(s) && s.dtor in {Joining, Joined} && Execution(s, actions, s')
    ensures s'.dtor in {Joining, Joined}
    decreases |actions|
  {
    if actions != [] {
      GoodKept(s, actions[0]);
      RemainingDecreases(s, actions[0]);
      StaysJoining(Apply(s, actions[0]), actions[1..], s');
    }
  }
}
