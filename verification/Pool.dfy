/**
 * The bounded worker pool (src/server/pool.rs) as a step system. Every access to the queue happens under its
 * lock and is one step; so is every load or store of a flag. Any interleaving of the steps is a run.
 */
module Pool {
  import opened Outcomes

  type Job = nat

  /** Where a worker thread is. Numbers are positions in the list of taken jobs. */
  datatype Pc =
    | Top                  // about to load the stop flag at the head of the loop
    | Maintaining
    | Polling              // about to look at the queue with the lock held
    | Waiting              // the condition variable has released the lock
    | Taken(job: nat)      // about to load the stop flag again
    | Cleared(job: nat)    // the flag was not raised; about to begin the job
    | Handling(job: nat)
    | Leaving              // about to drop the worker state
    | Panicked             // about to set `failed`
    | Reported             // about to raise the stop flag
    | Completing           // about to send the completion
    | Ended

  datatype Worker = Worker(pc: Pc, begunAfterStop: nat, panicked: bool)

  datatype Fate = Held | Handled | Discarded

  /** The thread that owns the pool: running, closing in two steps, collecting, or done with a result. */
  datatype Phase = Open | Closing | Collecting | TimedOut | Finished(ok: bool)

  datatype State = State(
    capacity: nat,
    queue: seq<Job>,
    closed: bool,
    stop: bool,
    failed: bool,
    workers: seq<Worker>,
    channel: nat,
    pending: nat,
    phase: Phase,
    // history
    received: nat,
    accepted: seq<Job>,
    taken: seq<Job>,
    fates: seq<Fate>,
    cleared: seq<Job>)

  /** One step of a worker. */
  datatype Step =
    | TestStop
    | Maintain(panics: bool)
    | Poll
    | Wake(timedOut: bool)
    | TestAgain
    | Begin
    | Finish(panics: bool)
    | Leave(panics: bool)
    | Report
    | StopAll
    | Complete

  datatype Action =
    | Spawn
    | Submit(job: Job)
    | RaiseStop
    | CloseStop
    | CloseQueue
    | Receive
    | GiveUp
    | Join
    | Work(i: nat, step: Step)

  function Initial(capacity: nat): State {
    State(capacity, [], false, false, false, [], 0, 0, Open, 0, [], [], [], [])
  }

  /** A worker at `pc` may take `step` next. */
  predicate Ready(pc: Pc, step: Step) {
    match step
    case TestStop => pc == Top
    case Maintain(_) => pc == Maintaining
    case Poll => pc == Polling
    case Wake(_) => pc == Waiting
    case TestAgain => pc.Taken?
    case Begin => pc.Cleared?
    case Finish(_) => pc.Handling?
    case Leave(_) => pc == Leaving
    case Report => pc == Panicked
    case StopAll => pc == Reported
    case Complete => pc == Completing
  }

  predicate Enabled(s: State, a: Action) {
    match a
    case Spawn => s.phase == Open
    case Submit(_) => true
    case RaiseStop => true
    case CloseStop => s.phase == Open
    case CloseQueue => s.phase == Closing
    case Receive => s.phase == Collecting && s.pending > 0 && s.channel > 0
    case GiveUp => s.phase == Collecting && s.pending > 0
    case Join => s.phase == Collecting && s.pending == 0
    case Work(i, step) => i < |s.workers| && Ready(s.workers[i].pc, step)
  }

  /** Adds a job unless the pool is stopping, closed or full; `false` drops the job. */
  predicate Accepts(s: State) {
    !s.stop && !s.closed && |s.queue| < s.capacity
  }

  /** What a poll finds under the lock. */
  predicate Takes(s: State) {
    !s.stop && !s.closed && s.queue != []
  }

  /** The worker after its step; a job that is begun is counted when the flag was raised in between. */
  function Next(s: State, w: Worker, step: Step): Worker
    requires Ready(w.pc, step)
  {
    match step
    case TestStop => w.(pc := if s.stop then Leaving else Maintaining)
    case Maintain(panics) => if panics then Panic(w) else w.(pc := Polling)
    case Poll =>
      w.(pc := if s.stop || s.closed then Leaving else if s.queue == [] then Waiting else Taken(|s.taken|))
    case Wake(timedOut) =>
      w.(pc := if timedOut && s.queue == [] && !s.closed && !s.stop then Top else Polling)
    case TestAgain => w.(pc := if s.stop then Leaving else Cleared(w.pc.job))
    case Begin => w.(pc := Handling(w.pc.job), begunAfterStop := w.begunAfterStop + if s.stop then 1 else 0)
    case Finish(panics) => if panics then Panic(w) else w.(pc := Top)
    case Leave(panics) => if panics then Panic(w) else w.(pc := Completing)
    case Report => w.(pc := Reported)
    case StopAll => w.(pc := Completing)
    case Complete => w.(pc := Ended)
  }

  function Panic(w: Worker): Worker {
    w.(pc := Panicked, panicked := true)
  }

  /** What the step of a worker does to everything but the workers. */
  function Shared(s: State, w: Worker, step: Step): State
    requires Ready(w.pc, step)
  {
    match step
    case Poll =>
      if !Takes(s) then s
      else s.(queue := s.queue[1..], taken := s.taken + [s.queue[0]], fates := s.fates + [Held])
    case TestAgain => if s.stop then Settle(s, w.pc.job, Discarded) else s
    case Finish(_) => Settle(s, w.pc.job, Handled)
    case Report => s.(failed := true)
    case StopAll => s.(stop := true)
    case Complete => s.(channel := s.channel + 1)
    case _ => s
  }

  function Settle(s: State, k: nat, fate: Fate): State {
    if k < |s.fates| then s.(fates := s.fates[k := fate]) else s
  }

  function Apply(s: State, a: Action): State
    requires Enabled(s, a)
  {
    match a
    case Spawn => s.(workers := s.workers + [Worker(Top, 0, false)], pending := s.pending + 1)
    case Submit(job) => if Accepts(s) then s.(queue := s.queue + [job], accepted := s.accepted + [job]) else s
    case RaiseStop => s.(stop := true)
    case CloseStop => s.(stop := true, phase := Closing)
    case CloseQueue => s.(closed := true, cleared := s.cleared + s.queue, queue := [], phase := Collecting)
    case Receive => s.(channel := s.channel - 1, pending := s.pending - 1, received := s.received + 1)
    case GiveUp => s.(phase := TimedOut)
    case Join => s.(phase := Finished(!s.failed))
    case Work(i, step) =>
      var w := s.workers[i];
      Shared(s, w, step).(workers := s.workers[i := Next(s, w, step)])
  }

  // ----- runs -----

  ghost predicate Run(states: seq<State>, actions: seq<Action>, capacity: nat) {
    && |states| == |actions| + 1
    && states[0] == Initial(capacity)
    && forall n :: 0 <= n < |actions| ==>
         Enabled(states[n], actions[n]) && states[n + 1] == Apply(states[n], actions[n])
  }

  // ----- what every step keeps -----

  /** Capacity, closing, and first in first out: accepted jobs are the taken, then the cleared, then the queued. */
  ghost predicate QueueInv(s: State) {
    && |s.queue| <= s.capacity
    && (s.closed ==> s.queue == [] && s.stop)
    && (!s.closed ==> s.cleared == [])
    && s.accepted == s.taken + s.cleared + s.queue
    && (s.phase != Open ==> s.stop)
    && (s.phase !in {Open, Closing} ==> s.closed)
  }

  function JobOf(w: Worker): Option<nat> {
    match w.pc
    case Taken(k) => Some(k)
    case Cleared(k) => Some(k)
    case Handling(k) => Some(k)
    case _ => None
  }

  /** A taken job is held by exactly one worker until it is handled or discarded. */
  ghost predicate JobInv(s: State) {
    && |s.fates| == |s.taken|
    && (forall i :: 0 <= i < |s.workers| && JobOf(s.workers[i]).Some? ==>
          var k := JobOf(s.workers[i]).value;
          k < |s.fates| && s.fates[k] == Held)
    && (forall i, j :: 0 <= i < j < |s.workers| && JobOf(s.workers[i]).Some? ==>
          JobOf(s.workers[i]) != JobOf(s.workers[j]))
    && (forall k :: 0 <= k < |s.fates| && s.fates[k] == Held ==> HeldBySome(s, k))
  }

  ghost predicate HeldBySome(s: State, k: nat) {
    exists i :: 0 <= i < |s.workers| && JobOf(s.workers[i]) == Some(k)
  }

  /** After the flag is raised each worker begins at most the job it had already cleared. */
  ghost predicate StopInv(s: State) {
    forall i :: 0 <= i < |s.workers| ==>
      && s.workers[i].begunAfterStop <= 1
      && (!s.stop || s.workers[i].pc.Cleared? ==> s.workers[i].begunAfterStop == 0)
  }

  /** Only a raised flag makes a worker discard the job it took. */
  ghost predicate DiscardInv(s: State) {
    forall k :: 0 <= k < |s.fates| && s.fates[k] == Discarded ==> s.stop
  }

  function CountEnded(ws: seq<Worker>): (n: nat)
    ensures n <= |ws|
  {
    if ws == [] then 0 else CountEnded(ws[..|ws| - 1]) + (if ws[|ws| - 1].pc == Ended then 1 else 0)
  }

  /** Completions are neither lost nor invented, and a panic is on record before its completion is sent. */
  ghost predicate CompletionInv(s: State) {
    && s.pending + s.received == |s.workers|
    && s.channel + s.received == CountEnded(s.workers)
    && (forall i :: 0 <= i < |s.workers| ==> Recorded(s.workers[i], s.failed))
    && (s.failed ==> SomePanicked(s))
    && (s.phase.Finished? ==> s.pending == 0)
  }

  ghost predicate SomePanicked(s: State) {
    exists i :: 0 <= i < |s.workers| && s.workers[i].panicked
  }

  ghost predicate ResultInv(s: State) {
    s.phase.Finished? ==> s.phase.ok == !s.failed && forall i :: 0 <= i < |s.workers| ==> s.workers[i].pc == Ended
  }

  ghost predicate Inv(s: State) {
    QueueInv(s) && JobInv(s) && StopInv(s) && DiscardInv(s) && CompletionInv(s) && ResultInv(s)
  }

  /** A worker's action moves no other worker. */
  lemma MoverMovesAlone(s: State, a: Action)
    requires Enabled(s, a) && a.Work?
    ensures var i := a.i; var ws := Apply(s, a).workers;
            i < |s.workers| && |ws| == |s.workers| && ws == s.workers[i := ws[i]]
  {
  }

  lemma InitialHolds(capacity: nat)
    ensures Inv(Initial(capacity))
  {
  }

  lemma QueueStep(s: State, a: Action)
    requires QueueInv(s) && Enabled(s, a)
    ensures QueueInv(Apply(s, a))
  {
    if a.Work? {
      hide Apply, Enabled;
      MoverQueues(s, a);
    }
  }

  lemma MoverQueues(s: State, a: Action)
    requires Enabled(s, a) && a.Work?
    ensures var t := Apply(s, a);
            && t.taken + t.queue == s.taken + s.queue && |t.queue| <= |s.queue|
            && (s.stop ==> t.stop)
            && (t.capacity, t.closed, t.cleared, t.accepted, t.phase)
               == (s.capacity, s.closed, s.cleared, s.accepted, s.phase)
            && (s.closed ==> t.taken == s.taken && t.queue == s.queue)
  {
  }

  /** A worker that keeps what it holds changes nothing about the jobs. */
  lemma JobsStay(s: State, t: State, i: nat, w: Worker)
    requires JobInv(s) && i < |s.workers| && JobOf(w) == JobOf(s.workers[i])
    requires t.workers == s.workers[i := w] && t.fates == s.fates && t.taken == s.taken
    ensures JobInv(t)
  {
    forall k | 0 <= k < |t.fates| && t.fates[k] == Held ensures HeldBySome(t, k) {
      var j :| 0 <= j < |s.workers| && JobOf(s.workers[j]) == Some(k);
      assert JobOf(t.workers[j]) == Some(k);
    }
  }

  /** A worker lets go of its job, whose fate is settled. */
  lemma JobSettles(s: State, t: State, i: nat, w: Worker, k: nat, fate: Fate)
    requires JobInv(s) && i < |s.workers| && JobOf(s.workers[i]) == Some(k) && JobOf(w) == None
    requires k < |s.fates| && fate != Held
    requires t.workers == s.workers[i := w] && t.fates == s.fates[k := fate] && t.taken == s.taken
    ensures JobInv(t)
  {
    forall l | 0 <= l < |t.fates| && t.fates[l] == Held ensures HeldBySome(t, l) {
      assert s.fates[l] == Held;
      var j :| 0 <= j < |s.workers| && JobOf(s.workers[j]) == Some(l);
      assert JobOf(t.workers[j]) == Some(l);
    }
    forall j | 0 <= j < |t.workers| && JobOf(t.workers[j]).Some?
      ensures JobOf(t.workers[j]).value != k
    {
      assert JobOf(s.workers[j]) == JobOf(t.workers[j]);
    }
  }

  /** A worker without a job takes the next one. */
  lemma JobTaken(s: State, t: State, i: nat, w: Worker, job: Job)
    requires JobInv(s) && i < |s.workers| && JobOf(s.workers[i]) == None && JobOf(w) == Some(|s.taken|)
    requires t.workers == s.workers[i := w] && t.fates == s.fates + [Held] && t.taken == s.taken + [job]
    ensures JobInv(t)
  {
    forall k | 0 <= k < |t.fates| && t.fates[k] == Held ensures HeldBySome(t, k) {
      if k < |s.fates| {
        var j :| 0 <= j < |s.workers| && JobOf(s.workers[j]) == Some(k);
        assert JobOf(t.workers[j]) == Some(k);
      } else {
        assert JobOf(t.workers[i]) == Some(k);
      }
    }
  }

  lemma JobSpawned(s: State, t: State)
    requires JobInv(s)
    requires t.workers == s.workers + [Worker(Top, 0, false)] && t.fates == s.fates && t.taken == s.taken
    ensures JobInv(t)
  {
    forall k | 0 <= k < |t.fates| && t.fates[k] == Held ensures HeldBySome(t, k) {
      var j :| 0 <= j < |s.workers| && JobOf(s.workers[j]) == Some(k);
      assert JobOf(t.workers[j]) == Some(k);
    }
  }

  lemma JobUntouched(s: State, t: State)
    requires JobInv(s) && t.workers == s.workers && t.fates == s.fates && t.taken == s.taken
    ensures JobInv(t)
  {
    forall k | 0 <= k < |t.fates| && t.fates[k] == Held ensures HeldBySome(t, k) {
      var j :| 0 <= j < |s.workers| && JobOf(s.workers[j]) == Some(k);
      assert JobOf(t.workers[j]) == Some(k);
    }
  }

  lemma HeldJobIsKnown(s: State, i: nat)
    requires JobInv(s) && i < |s.workers| && JobOf(s.workers[i]).Some?
    ensures JobOf(s.workers[i]).value < |s.fates|
  {
  }

  /** Only polling takes a job, and only the check after it and the handler let go of one. */
  lemma MoveKeepsJobs(s: State, a: Action)
    requires Enabled(s, a) && a.Work? && !a.step.Poll? && !a.step.TestAgain? && !a.step.Finish?
    ensures var i := a.i; var t := Apply(s, a);
            && i < |s.workers| && i < |t.workers| && JobOf(t.workers[i]) == JobOf(s.workers[i])
            && t.taken == s.taken && t.fates == s.fates
  {
  }

  lemma PollTakesFirst(s: State, a: Action)
    requires Enabled(s, a) && a.Work? && a.step.Poll?
    ensures var t := Apply(s, a);
            && a.i < |s.workers| && a.i < |t.workers| && JobOf(s.workers[a.i]) == None
            && if JobOf(t.workers[a.i]) == None then t.taken == s.taken && t.fates == s.fates
               else
                 && JobOf(t.workers[a.i]) == Some(|s.taken|) && s.queue != []
                 && t.taken == s.taken + [s.queue[0]] && t.fates == s.fates + [Held]
  {
  }

  lemma MoveSettlesJob(s: State, a: Action)
    requires Enabled(s, a) && a.Work? && (a.step.TestAgain? || a.step.Finish?)
    ensures var t := Apply(s, a);
            && a.i < |s.workers| && a.i < |t.workers| && t.taken == s.taken && JobOf(s.workers[a.i]).Some?
            && var k := JobOf(s.workers[a.i]).value;
               if JobOf(t.workers[a.i]) == Some(k) then t.fates == s.fates
               else
                 && JobOf(t.workers[a.i]) == None
                 && (k < |s.fates| ==> t.fates == s.fates[k := if a.step.Finish? then Handled else Discarded])
  {
  }

  lemma JobStep(s: State, a: Action)
    requires JobInv(s) && Enabled(s, a)
    ensures JobInv(Apply(s, a))
  {
    hide JobInv, JobOf;
    var t := Apply(s, a);
    if a.Work? {
      hide Apply, Enabled;
      var i := a.i;
      MoverMovesAlone(s, a);
      var w := t.workers[i];
      if a.step.Poll? {
        PollTakesFirst(s, a);
        if JobOf(w).Some? {
          JobTaken(s, t, i, w, s.queue[0]);
        } else {
          JobsStay(s, t, i, w);
        }
      } else if a.step.TestAgain? || a.step.Finish? {
        MoveSettlesJob(s, a);
        HeldJobIsKnown(s, i);
        if JobOf(w).Some? {
          JobsStay(s, t, i, w);
        } else {
          JobSettles(s, t, i, w, JobOf(s.workers[i]).value, if a.step.Finish? then Handled else Discarded);
        }
      } else {
        MoveKeepsJobs(s, a);
        JobsStay(s, t, i, w);
      }
    } else if a.Spawn? {
      JobSpawned(s, t);
    } else {
      JobUntouched(s, t);
    }
  }

  /** What a worker's action may do to that worker, as far as the stop flag is concerned. */
  predicate MayBecome(v: Worker, w: Worker, stop: bool) {
    && (w.pc.Cleared? ==> !stop)
    && (w.begunAfterStop == v.begunAfterStop
        || (v.pc.Cleared? && stop && !w.pc.Cleared? && w.begunAfterStop == v.begunAfterStop + 1))
  }

  lemma MoveRespectsStop(s: State, a: Action)
    requires Enabled(s, a) && a.Work?
    ensures var i := a.i; var t := Apply(s, a);
            && i < |s.workers| && i < |t.workers|
            && (t.stop == s.stop || (t.stop && t.workers[i].begunAfterStop == s.workers[i].begunAfterStop))
            && MayBecome(s.workers[i], t.workers[i], s.stop)
  {
  }

  lemma StopStep(s: State, a: Action)
    requires StopInv(s) && Enabled(s, a)
    ensures StopInv(Apply(s, a))
  {
    if a.Work? {
      hide Apply, Enabled;
      MoverMovesAlone(s, a);
      MoveRespectsStop(s, a);
    }
  }

  lemma DiscardStep(s: State, a: Action)
    requires DiscardInv(s) && Enabled(s, a)
    ensures DiscardInv(Apply(s, a))
  {
  }

  lemma {:induction false} CountUpdate(ws: seq<Worker>, i: nat, w: Worker)
    requires i < |ws|
    ensures CountEnded(ws[i := w])
            == CountEnded(ws) - (if ws[i].pc == Ended then 1 else 0) + (if w.pc == Ended then 1 else 0)
    decreases |ws|
  {
    var init := ws[..|ws| - 1];
    if i == |ws| - 1 {
      assert ws[i := w][..|ws| - 1] == init;
    } else {
      assert ws[i := w][..|ws| - 1] == init[i := w];
      CountUpdate(init, i, w);
    }
  }

  lemma CountAppend(ws: seq<Worker>, w: Worker)
    ensures CountEnded(ws + [w]) == CountEnded(ws) + if w.pc == Ended then 1 else 0
  {
    assert (ws + [w])[..|ws|] == ws;
  }

  lemma {:induction false} AllEnded(ws: seq<Worker>)
    requires CountEnded(ws) == |ws|
    ensures forall i :: 0 <= i < |ws| ==> ws[i].pc == Ended
    decreases |ws|
  {
    if ws != [] {
      AllEnded(ws[..|ws| - 1]);
      forall i | 0 <= i < |ws| - 1 ensures ws[i].pc == Ended {
        assert ws[i] == ws[..|ws| - 1][i];
      }
    }
  }

  /** The completion accounts without the lists they speak of. */
  lemma MoveRespectsCompletion(s: State, a: Action)
    requires Enabled(s, a) && a.Work?
    ensures var i := a.i; var t := Apply(s, a);
            && i < |s.workers| && i < |t.workers|
            && t.pending == s.pending && t.received == s.received && t.phase == s.phase
            && s.workers[i].pc != Ended
            && t.channel == s.channel + (if t.workers[i].pc == Ended then 1 else 0)
            && OutcomeMove(s.workers[i], t.workers[i], s.failed, t.failed)
  {
  }

  /** A panic is recorded at once, and reported before the worker goes on. */
  predicate OutcomeMove(v: Worker, w: Worker, failed: bool, failedAfter: bool) {
    && OutcomeOf(v, w)
    && (failedAfter == (failed || v.pc == Panicked))
  }

  predicate OutcomeOf(v: Worker, w: Worker) {
    match v.pc
    case Panicked => w.pc == Reported && w.panicked == v.panicked
    case Reported => w.pc == Completing && w.panicked == v.panicked
    case Completing => w.pc == Ended && w.panicked == v.panicked
    case _ => w.pc !in {Reported, Ended} && (w.panicked <==> v.panicked || w.pc == Panicked)
  }

  /** A panic is marked while it unwinds, stays marked, and has set `failed` before its completion is sent. */
  predicate Recorded(w: Worker, failed: bool) {
    && (w.pc in {Panicked, Reported} ==> w.panicked)
    && (w.panicked ==> w.pc in {Panicked, Reported, Completing, Ended})
    && (w.panicked && w.pc != Panicked ==> failed)
  }

  lemma CompletionStep(s: State, a: Action)
    requires CompletionInv(s) && Enabled(s, a)
    ensures CompletionInv(Apply(s, a))
  {
    hide Apply, Enabled, CountEnded, SomePanicked;
    var t := Apply(s, a);
    if a.Work? {
      var i := a.i;
      MoverMovesAlone(s, a);
      MoveRespectsCompletion(s, a);
      CountUpdate(s.workers, i, t.workers[i]);
      PanicsStay(s, t, i);
    } else {
      OwnerRespectsCompletion(s, a);
      if a.Spawn? {
        CountAppend(s.workers, Worker(Top, 0, false));
      }
    }
  }

  lemma OwnerRespectsCompletion(s: State, a: Action)
    requires Enabled(s, a) && !a.Work?
    ensures var t := Apply(s, a);
            && (if a.Spawn? then
                  t.workers == s.workers + [Worker(Top, 0, false)] && t.pending == s.pending + 1
                  && t.channel == s.channel && t.received == s.received
                else
                  t.workers == s.workers && t.pending + t.received == s.pending + s.received
                  && t.channel + t.received == s.channel + s.received)
            && t.failed == s.failed
            && (t.phase.Finished? ==> t.pending == s.pending && (s.phase.Finished? || t.pending == 0))
            && (SomePanicked(s) ==> SomePanicked(t))
  {
    if SomePanicked(s) {
      var j :| 0 <= j < |s.workers| && s.workers[j].panicked;
      assert Apply(s, a).workers[j].panicked;
    }
  }

  lemma PanicsStay(s: State, t: State, i: nat)
    requires i < |s.workers| && |t.workers| == |s.workers| && t.workers == s.workers[i := t.workers[i]]
    requires s.workers[i].panicked ==> t.workers[i].panicked
    requires t.failed ==> s.failed || t.workers[i].panicked
    requires s.failed ==> SomePanicked(s)
    ensures t.failed ==> SomePanicked(t)
  {
    if s.failed {
      var j :| 0 <= j < |s.workers| && s.workers[j].panicked;
      assert t.workers[j].panicked;
    }
  }

  lemma ResultStep(s: State, a: Action)
    requires ResultInv(s) && CompletionInv(s) && Enabled(s, a)
    ensures ResultInv(Apply(s, a))
  {
    if a.Join? {
      AllEnded(s.workers);
    }
  }

  /** Every step keeps the invariant. */
  lemma StepKeeps(s: State, a: Action)
    requires Inv(s) && Enabled(s, a)
    ensures Inv(Apply(s, a))
  {
    hide QueueInv, JobInv, StopInv, DiscardInv, CompletionInv, ResultInv, Apply;
    QueueStep(s, a);
    JobStep(s, a);
    StopStep(s, a);
    DiscardStep(s, a);
    CompletionStep(s, a);
    ResultStep(s, a);
  }

  /** The invariant holds in every state of every run. */
  lemma {:induction false} RunKeeps(states: seq<State>, actions: seq<Action>, capacity: nat, n: nat)
    requires Run(states, actions, capacity) && n < |states|
    ensures Inv(states[n])
    decreases n
  {
    hide Inv, Apply, Enabled, Initial;
    if n == 0 {
      InitialHolds(capacity);
    } else {
      RunKeeps(states, actions, capacity, n - 1);
      StepKeeps(states[n - 1], actions[n - 1]);
    }
  }

  // ----- what the invariant means -----

  /**
   * In every state of every run: the queue is bounded, and empty once closed; jobs leave in the order they came;
   * every accepted job is queued, cleared by closing, or taken, and a taken job is held by exactly one worker,
   * handled or discarded.
   */
  lemma AcceptedJobsAreAccounted(states: seq<State>, actions: seq<Action>, capacity: nat, n: nat)
    requires Run(states, actions, capacity) && n < |states|
    ensures var s := states[n];
            && s.capacity == capacity && |s.queue| <= capacity
            && (s.closed ==> s.queue == [])
            && s.taken <= s.accepted
            && |s.accepted| == |s.taken| + |s.cleared| + |s.queue|
            && s.accepted[|s.taken| + |s.cleared|..] == s.queue
            && (s.cleared != [] ==> s.closed)
            && |s.fates| == |s.taken|
            && (Discarded in s.fates ==> s.stop)
            && (forall k :: 0 <= k < |s.fates| ==>
                  (s.fates[k] == Held <==> exists i :: 0 <= i < |s.workers| && JobOf(s.workers[i]) == Some(k)))
            && (forall i, j :: 0 <= i < j < |s.workers| && JobOf(s.workers[i]).Some? ==>
                  JobOf(s.workers[i]) != JobOf(s.workers[j]))
  {
    RunKeeps(states, actions, capacity, n);
    CapacityIsFixed(states, actions, capacity, n);
    hide Run;
  }

  lemma {:induction false} CapacityIsFixed(states: seq<State>, actions: seq<Action>, capacity: nat, n: nat)
    requires Run(states, actions, capacity) && n < |states|
    ensures states[n].capacity == capacity
    decreases n
  {
    if n > 0 {
      CapacityIsFixed(states, actions, capacity, n - 1);
      assert states[n] == Apply(states[n - 1], actions[n - 1]);
    }
  }

  /** In any run a job joins the end of the queue unless a stop was raised or the queue is full. */
  lemma SubmissionsEnter(states: seq<State>, actions: seq<Action>, capacity: nat, n: nat)
    requires Run(states, actions, capacity) && n < |actions| && actions[n].Submit?
    ensures var s, job := states[n], actions[n].job;
            states[n + 1] ==
            if s.stop || |s.queue| == capacity then s
            else s.(queue := s.queue + [job], accepted := s.accepted + [job])
  {
    RunKeeps(states, actions, capacity, n);
    CapacityIsFixed(states, actions, capacity, n);
  }

  /** In any run a worker that looks at the queue takes its head, waits if it is empty, or leaves after a stop. */
  lemma PollsTakeTheHead(states: seq<State>, actions: seq<Action>, capacity: nat, n: nat)
    requires Run(states, actions, capacity) && n < |actions| && actions[n].Work? && actions[n].step == Poll
    ensures var s, t, i := states[n], states[n + 1], actions[n].i;
            && i < |s.workers| == |t.workers|
            && (t.taken, t.queue) ==
               (if s.stop || s.queue == [] then (s.taken, s.queue) else (s.taken + [s.queue[0]], s.queue[1..]))
            && t.workers[i].pc == (if s.stop then Leaving else if s.queue == [] then Waiting else Taken(|s.taken|))
  {
    RunKeeps(states, actions, capacity, n);
  }

  /** How many of the first `n` actions begin a job of worker `i` while the stop flag is up. */
  ghost function LateBegins(states: seq<State>, actions: seq<Action>, i: nat, n: nat): nat
    requires |states| == |actions| + 1 && n <= |actions|
  {
    if n == 0 then 0
    else LateBegins(states, actions, i, n - 1) + if actions[n - 1] == Work(i, Begin) && states[n - 1].stop then 1 else 0
  }

  lemma {:induction false} LateBeginsAreCounted(states: seq<State>, actions: seq<Action>, capacity: nat, i: nat, n: nat)
    requires Run(states, actions, capacity) && n <= |actions|
    ensures LateBegins(states, actions, i, n)
            == BegunLate(states[n].workers, i)
    decreases n
  {
    if n > 0 {
      LateBeginsAreCounted(states, actions, capacity, i, n - 1);
      BeginsAreCounted(states[n - 1], actions[n - 1], i);
      hide Enabled, Apply;
      assert states[n] == Apply(states[n - 1], actions[n - 1]);
    }
  }

  lemma BeginsAreCounted(s: State, a: Action, i: nat)
    requires Enabled(s, a)
    ensures var (before, after) := (BegunLate(s.workers, i), BegunLate(Apply(s, a).workers, i));
            after == before + if a == Work(i, Begin) && s.stop then 1 else 0
  {
    if a.Work? {
      MoverMovesAlone(s, a);
      MoverBegins(s, a);
    } else {
      hide Enabled;
      assert Apply(s, a).workers in {s.workers, s.workers + [Worker(Top, 0, false)]};
    }
  }

  function BegunLate(ws: seq<Worker>, i: nat): nat {
    if i < |ws| then ws[i].begunAfterStop else 0
  }

  lemma MoverBegins(s: State, a: Action)
    requires Enabled(s, a) && a.Work?
    ensures var i := a.i; var ws := Apply(s, a).workers;
            && i < |s.workers| && i < |ws|
            && ws[i].begunAfterStop == s.workers[i].begunAfterStop + if a.step.Begin? && s.stop then 1 else 0
  {
  }

  /** Of all the jobs in a run, each worker begins at most one after the stop flag is raised. */
  lemma StopEndsWork(states: seq<State>, actions: seq<Action>, capacity: nat, i: nat)
    requires Run(states, actions, capacity)
    ensures LateBegins(states, actions, i, |actions|) <= 1
  {
    LateBeginsAreCounted(states, actions, capacity, i, |actions|);
    RunKeeps(states, actions, capacity, |actions|);
    hide Run;
  }

  /** The job has been begun: it is being handled or its fate is settled. */
  ghost predicate WasBegun(s: State, k: nat) {
    k < |s.fates| && (s.fates[k] != Held || exists i :: 0 <= i < |s.workers| && s.workers[i].pc == Handling(k))
  }

  lemma BegunStays(s: State, a: Action, k: nat)
    requires Enabled(s, a) && WasBegun(s, k)
    ensures WasBegun(Apply(s, a), k)
  {
    var t := Apply(s, a);
    FatesStaySettled(s, a, k);
    if s.fates[k] == Held {
      var i :| 0 <= i < |s.workers| && s.workers[i].pc == Handling(k);
      if a.Work? && a.i == i {
        HandlingEnds(s, a, i);
      } else {
        OthersStay(s, a, i);
        assert t.workers[i].pc == Handling(k);
      }
    }
  }

  lemma OthersStay(s: State, a: Action, i: nat)
    requires Enabled(s, a) && i < |s.workers| && !(a.Work? && a.i == i)
    ensures i < |Apply(s, a).workers| && Apply(s, a).workers[i] == s.workers[i]
  {
    if a.Work? {
      hide Apply, Enabled;
      MoverMovesAlone(s, a);
    } else {
      hide Enabled;
      assert Apply(s, a).workers in {s.workers, s.workers + [Worker(Top, 0, false)]};
    }
  }

  lemma HandlingEnds(s: State, a: Action, i: nat)
    requires Enabled(s, a) && a.Work? && a.i == i && s.workers[i].pc.Handling? && s.workers[i].pc.job < |s.fates|
    ensures Apply(s, a).fates == s.fates[s.workers[i].pc.job := Handled]
  {
  }

  lemma FatesStaySettled(s: State, a: Action, k: nat)
    requires Enabled(s, a) && k < |s.fates|
    ensures k < |Apply(s, a).fates| && (s.fates[k] != Held ==> Apply(s, a).fates[k] != Held)
  {
  }

  /** The number of the job that an action begins. */
  function JobBegun(s: State, a: Action): Option<nat>
    requires Enabled(s, a)
  {
    if a.Work? && a.step.Begin? then Some(s.workers[a.i].pc.job) else None
  }

  lemma {:induction false} BegunFromThenOn(states: seq<State>, actions: seq<Action>, capacity: nat, m: nat, n: nat)
    requires Run(states, actions, capacity) && m < n < |states|
    requires JobBegun(states[m], actions[m]).Some?
    ensures WasBegun(states[n], JobBegun(states[m], actions[m]).value)
    decreases n
  {
    hide Apply, Enabled, WasBegun, Inv, JobInv, Initial;
    RunKeeps(states, actions, capacity, n - 1);
    if n == m + 1 {
      BeginMarks(states[m], actions[m]);
    } else {
      BegunFromThenOn(states, actions, capacity, m, n - 1);
      BegunStays(states[n - 1], actions[n - 1], JobBegun(states[m], actions[m]).value);
    }
  }

  lemma BeginMarks(s: State, a: Action)
    requires Inv(s) && Enabled(s, a) && JobBegun(s, a).Some?
    ensures WasBegun(Apply(s, a), JobBegun(s, a).value)
  {
    hide QueueInv, StopInv, DiscardInv, CompletionInv, ResultInv;
    var t := Apply(s, a);
    assert t.workers[a.i].pc == Handling(s.workers[a.i].pc.job);
    assert JobOf(s.workers[a.i]).Some?;
  }

  lemma BegunIsNotCleared(s: State, k: nat, i: nat)
    requires Inv(s) && WasBegun(s, k) && i < |s.workers| && s.workers[i].pc.Cleared?
    ensures s.workers[i].pc.job != k
  {
    hide QueueInv, StopInv, DiscardInv, CompletionInv, ResultInv;
    assert JobOf(s.workers[i]).Some?;
    if s.fates[k] == Held {
      var j :| 0 <= j < |s.workers| && s.workers[j].pc == Handling(k);
      assert JobOf(s.workers[j]) == Some(k);
      assert j < i || i < j;
    }
  }

  /** No accepted job is begun twice, by the same worker or by two. */
  lemma NoJobIsBegunTwice(states: seq<State>, actions: seq<Action>, capacity: nat, m: nat, n: nat)
    requires Run(states, actions, capacity) && m < n < |actions|
    requires JobBegun(states[m], actions[m]).Some?
    ensures JobBegun(states[n], actions[n]) != JobBegun(states[m], actions[m])
  {
    BegunFromThenOn(states, actions, capacity, m, n);
    RunKeeps(states, actions, capacity, n);
    hide Apply, Inv, WasBegun;
    if JobBegun(states[n], actions[n]).Some? {
      BegunIsNotCleared(states[n], JobBegun(states[m], actions[m]).value, actions[n].i);
    }
  }

  /**
   * A shutdown that collected every completion found every worker at its end and an empty queue; it reports
   * success exactly when no worker ever panicked.
   */
  lemma ShutdownReportsPanics(states: seq<State>, actions: seq<Action>, capacity: nat, n: nat)
    requires Run(states, actions, capacity) && n < |states| && states[n].phase.Finished?
    ensures var s := states[n];
            && (forall i :: 0 <= i < |s.workers| ==> s.workers[i].pc == Ended)
            && s.queue == [] && s.closed && s.pending == 0 && s.channel == 0 && s.received == |s.workers|
            && (s.phase.ok <==> forall i :: 0 <= i < |s.workers| ==> !s.workers[i].panicked)
  {
    RunKeeps(states, actions, capacity, n);
    hide Run;
  }

  /** The owner never waits for more completions than workers that still owe one. */
  lemma PendingIsOwed(states: seq<State>, actions: seq<Action>, capacity: nat, n: nat)
    requires Run(states, actions, capacity) && n < |states|
    ensures var s := states[n];
            s.pending == |s.workers| - s.received && s.pending == s.channel + (|s.workers| - CountEnded(s.workers))
  {
    RunKeeps(states, actions, capacity, n);
    hide Run;
  }
}
