/** All runs of the sleep timer: clients and the worker thread interleaved at their critical sections,
    a clock that only moves forward, and wake-ups at any moment (src/sleepTimer.cpp:76-162). */
module TimerRuns {
  import opened SleepTimer
  import opened Texts

  /** A change made under the lock, in the order the lock was taken. */
  datatype Change =
    | Set(generation: nat, action: Text, deadline: real)
    | Cancelled
    | Stopped
    | Fired(generation: nat, action: Text, at: real)

  /** What happens outside the lock: the thread is started and joined, and fired actions begin. */
  datatype Event = Launched | Joined | Began(fired: nat)

  datatype Worker =
    | NotRunning
    | Starting                  // launched, or back from an action, and about to take the lock
    | Sleeping(wait: Exit)
    | Claimed(fired: nat)       // has left the lock with the action of that change
    | Executing(fired: nat)
    | Announcing(fired: nat)    // the action is done, listeners are told next
    | Ended

  datatype State = State(
    stopped: bool, timer: Setting, worker: Worker, clock: real,
    changes: seq<Change>, events: seq<Event>,
    asleep: bool,    // the worker is blocked in its wait
    notices: nat)    // calls of notify_all under way

  datatype Step =
    | Tick(time: real)
    | Launch
    | DoSet(action: Text, delay: int)
    | DoCancel
    | DoStop
    | DoJoin
    | NotifyAll
    | Work(timedOut: bool)

  const INITIAL := State(false, UNSET, NotRunning, 0.0, [], [], false, 0)

  /** One step; a step that cannot be taken changes nothing. */
  function Do(s: State, step: Step): State {
    match step
    case Tick(time) => if time > 0.0 then s.(clock := s.clock + time) else s
    case Launch =>
      if s.worker.NotRunning? then s.(stopped := false, worker := Starting, events := s.events + [Launched]) else s
    case DoSet(action, delay) =>
      var t := AfterSet(s.timer, s.clock, action, delay);
      s.(timer := t, changes := s.changes + [Set(t.generation, action, t.deadline)], notices := s.notices + 1)
    case DoCancel => s.(timer := Inactive(s.timer), changes := s.changes + [Cancelled], notices := s.notices + 1)
    case DoStop =>
      s.(stopped := true, timer := Inactive(s.timer), changes := s.changes + [Stopped], notices := s.notices + 1)
    case DoJoin =>
      if s.worker.Ended? then s.(worker := NotRunning, events := s.events + [Joined])
      else if s.worker.NotRunning? then s.(events := s.events + [Joined])
      else s
    case NotifyAll => if s.notices > 0 then s.(asleep := false, notices := s.notices - 1) else s
    case Work(timedOut) => DoWork(s, timedOut)
  }

  /** The worker's next section, whichever it is; a sleeping worker may wake at any moment. */
  function DoWork(s: State, timedOut: bool): State {
    match s.worker
    case NotRunning => s
    case Ended => s
    case Starting => Leave(s, LoopTop(s.stopped, s.timer))
    case Sleeping(wait) =>
      if wait.SleepUntil?
      then Leave(s, WakeTimed(s.stopped, s.timer, wait.generation, timedOut, s.clock))
      else Leave(s, WakeIdle(s.stopped, s.timer))
    case Claimed(fired) => s.(worker := Executing(fired), events := s.events + [Began(fired)])
    case Executing(fired) => s.(worker := Announcing(fired))
    case Announcing(_) => s.(worker := Starting)
  }

  function Leave(s: State, exit: Exit): State {
    match exit
    case Finished => s.(worker := Ended, asleep := false)
    case SleepIdle => s.(worker := Sleeping(exit), asleep := true)
    case SleepUntil(_) => s.(worker := Sleeping(exit), asleep := true)
    case Fire(generation, action) =>
      s.(worker := Claimed(|s.changes|), asleep := false, timer := Inactive(s.timer),
         changes := s.changes + [Fired(generation, action, s.clock)])
  }

  function Run(s: State, steps: seq<Step>): State
    decreases |steps|
  {
    if steps == [] then s else Run(Do(s, steps[0]), steps[1..])
  }

  // ---------------------------------------------------------------- the changes tell the timer

  function AfterChange(t: Setting, c: Change): Setting {
    match c
    case Set(g, a, d) => Setting(true, a, d, g)
    case _ => Inactive(t)
  }

  /** The timer's fields after some changes. */
  function Replay(changes: seq<Change>): Setting
    decreases |changes|
  {
    if changes == [] then UNSET else AfterChange(Replay(changes[..|changes| - 1]), changes[|changes| - 1])
  }

  lemma ReplaySnoc(changes: seq<Change>, c: Change)
    ensures Replay(changes + [c]) == AfterChange(Replay(changes), c)
  {
    assert (changes + [c])[..|changes|] == changes;
  }

  /** A firing directly follows, among the locked changes, the setting whose action it carries out. */
  ghost predicate Justified(changes: seq<Change>, i: nat)
    requires i < |changes| && changes[i].Fired?
  {
    && i > 0
    && changes[i - 1].Set?
    && changes[i - 1].generation == changes[i].generation
    && changes[i - 1].action == changes[i].action
    && changes[i - 1].deadline <= changes[i].at
  }

  ghost predicate ChangesInv(s: State) {
    && s.timer == Replay(s.changes)
    && (s.timer.active ==> s.changes != [])
    && (s.timer.active ==> s.changes[|s.changes| - 1] == Set(s.timer.generation, s.timer.action, s.timer.deadline))
    && (forall i :: 0 <= i < |s.changes| && s.changes[i].Set? ==> s.changes[i].generation <= s.timer.generation)
    && (forall i, j :: 0 <= i < j < |s.changes| && s.changes[i].Set? && s.changes[j].Set? ==>
          s.changes[i].generation < s.changes[j].generation)
    && (forall i :: 0 <= i < |s.changes| && s.changes[i].Fired? ==> Justified(s.changes, i))
  }

  lemma ChangeKept(s: State, s': State, c: Change)
    requires ChangesInv(s)
    requires s'.changes == s.changes + [c] && s'.timer == AfterChange(s.timer, c)
    requires c.Set? ==> c.generation > s.timer.generation
    requires c.Fired? ==> s.timer.active && s.timer.generation == c.generation && s.timer.action == c.action
    requires c.Fired? ==> s.timer.deadline <= c.at
    ensures ChangesInv(s')
  {
    ReplaySnoc(s.changes, c);
    forall i | 0 <= i < |s'.changes| && s'.changes[i].Fired?
      ensures Justified(s'.changes, i)
    {
      assert i < |s.changes| ==> Justified(s.changes, i);
    }
  }

  lemma StepChanges(s: State, step: Step)
    requires ChangesInv(s)
    ensures ChangesInv(Do(s, step))
  {
    var s' := Do(s, step);
    hide Replay;
    if s'.changes != s.changes {
      assert s'.changes[..|s.changes|] == s.changes;
      ChangeKept(s, s', s'.changes[|s.changes|]);
    }
  }

  lemma {:induction false} RunChanges(s: State, steps: seq<Step>)
    requires ChangesInv(s)
    ensures ChangesInv(Run(s, steps))
    decreases |steps|
  {
    if steps != [] {
      StepChanges(s, steps[0]);
      RunChanges(Do(s, steps[0]), steps[1..]);
    }
  }

  /** In every run, a firing carries out the action of a setting whose deadline has passed, and
      between the two no cancellation, stop, firing or newer setting took the lock. */
  lemma FiringsJustified(steps: seq<Step>)
    ensures var s := Run(INITIAL, steps);
      && s.timer == Replay(s.changes)
      && forall i :: 0 <= i < |s.changes| && s.changes[i].Fired? ==> Justified(s.changes, i)
  {
    RunChanges(INITIAL, steps);
  }

  /** In every run, no setting fires twice. */
  lemma FiresAtMostOnce(steps: seq<Step>, i: nat, j: nat)
    requires var s := Run(INITIAL, steps);
      i < j < |s.changes| && s.changes[i].Fired? && s.changes[j].Fired?
    ensures var s := Run(INITIAL, steps); s.changes[i].generation < s.changes[j].generation
  {
    RunChanges(INITIAL, steps);
    var s := Run(INITIAL, steps);
    assert Justified(s.changes, i) && Justified(s.changes, j);
    assert i - 1 < j - 1;
  }

  ghost predicate Due(s: State) {
    s.timer.active && !s.stopped && s.timer.deadline <= s.clock
  }

  lemma WorkGrows(s: State, timedOut: bool)
    ensures s.changes <= DoWork(s, timedOut).changes
  {
    hide LoopTop, WakeIdle, WakeTimed;
  }

  lemma {:induction false} RunGrows(s: State, steps: seq<Step>)
    ensures s.changes <= Run(s, steps).changes
    decreases |steps|
  {
    if steps != [] {
      WorkGrows(s, if steps[0].Work? then steps[0].timedOut else false);
      RunGrows(Do(s, steps[0]), steps[1..]);
      hide DoWork;
    }
  }

  /** No two settings share a generation. */
  lemma OneSetting(s: State, i: nat, j: nat)
    requires ChangesInv(s) && i < |s.changes| && j < |s.changes| && s.changes[i].Set? && s.changes[j].Set?
    requires s.changes[i].generation == s.changes[j].generation
    ensures i == j
  {}

  lemma SettingKept(s: State, n: nat)
    requires ChangesInv(s) && n < |s.changes| && s.changes[n].Set?
    ensures var made := s.changes[n];
      && (forall i :: 0 <= i < |s.changes| && s.changes[i].Fired? && s.changes[i].generation == made.generation ==>
            s.changes[i].at >= made.deadline && s.changes[i].action == made.action)
      && (s.timer.active && s.timer.generation == made.generation ==>
            s.timer.action == made.action && s.timer.deadline == made.deadline)
  {
    var made := s.changes[n];
    forall i | 0 <= i < |s.changes| && s.changes[i].Fired? && s.changes[i].generation == made.generation
      ensures s.changes[i].at >= made.deadline && s.changes[i].action == made.action
    {
      assert Justified(s.changes, i);
      OneSetting(s, i - 1, n);
    }
    if s.timer.active && s.timer.generation == made.generation {
      OneSetting(s, |s.changes| - 1, n);
    }
  }

  /** In every run, whatever else happens: the setting made by a call with this delay carries that action, fires
      no earlier than the delay after the call, and while it stands is due exactly from then on. */
  lemma DelayIsKept(before: seq<Step>, action: Text, delay: int, after: seq<Step>)
    ensures var s0 := Run(INITIAL, before);
      var s1 := Do(s0, DoSet(action, delay));
      var s, g, due := Run(s1, after), s1.timer.generation, s0.clock + delay as real;
      && (forall i :: 0 <= i < |s.changes| && s.changes[i].Fired? && s.changes[i].generation == g ==>
            s.changes[i].at >= due && s.changes[i].action == action)
      && (s.timer.active && s.timer.generation == g ==>
            s.timer.action == action && (Due(s) <==> !s.stopped && due <= s.clock))
  {
    var s0 := Run(INITIAL, before);
    var step := DoSet(action, delay);
    var s1 := Do(s0, step);
    var s, n := Run(s1, after), |s0.changes|;
    assert s1.changes == s0.changes + [Set(s1.timer.generation, action, s0.clock + delay as real)];
    hide Run, Do, ChangesInv;
    InitialChanges();
    RunChanges(INITIAL, before);
    StepChanges(s0, step);
    RunChanges(s1, after);
    RunGrows(s1, after);
    assert s.changes[n] == s1.changes[n];
    SettingKept(s, n);
  }

  lemma InitialChanges()
    ensures ChangesInv(INITIAL)
  {}

  // ---------------------------------------------------------------- actions begin only while running

  /** Between the launch of the worker and its join. */
  function Up(events: seq<Event>): bool
    decreases |events|
  {
    if events == [] then false
    else
      var last := events[|events| - 1];
      if last.Began? then Up(events[..|events| - 1]) else last.Launched?
  }

  ghost predicate EventsInv(s: State) {
    && (Up(s.events) <==> !s.worker.NotRunning?)
    && (s.worker.Ended? ==> s.stopped)
    && (forall j :: 0 <= j < |s.events| && s.events[j].Began? ==>
          && Up(s.events[..j])
          && s.events[j].fired < |s.changes| && s.changes[s.events[j].fired].Fired?)
    && (forall i, j :: 0 <= i < j < |s.events| && s.events[i].Began? && s.events[j].Began? ==>
          s.events[i].fired < s.events[j].fired)
    && (s.worker.Claimed? ==>
          && s.worker.fired < |s.changes| && s.changes[s.worker.fired].Fired?
          && forall i :: 0 <= i < |s.events| && s.events[i].Began? ==> s.events[i].fired < s.worker.fired)
  }

  lemma EventKept(s: State, s': State, e: Event)
    requires EventsInv(s)
    requires s'.events == s.events + [e] && s'.changes == s.changes
    requires e.Began? ==> s.worker == Claimed(e.fired) && s'.worker == Executing(e.fired)
    requires e.Launched? ==> s'.worker.Starting?
    requires e.Joined? ==> s'.worker.NotRunning?
    requires s'.worker.Ended? ==> s'.stopped
    ensures EventsInv(s')
  {
    assert s'.events[..|s.events|] == s.events;
    forall j | 0 <= j < |s'.events| && s'.events[j].Began?
      ensures Up(s'.events[..j]) && s'.events[j].fired < |s'.changes| && s'.changes[s'.events[j].fired].Fired?
    {
      assert j < |s.events| ==> s'.events[..j] == s.events[..j];
    }
  }

  /** Steps outside the thread's life leave its events alone. */
  lemma QuietKept(s: State, s': State)
    requires EventsInv(s) && s'.events == s.events && s.changes <= s'.changes
    requires s'.worker.NotRunning? <==> s.worker.NotRunning?
    requires s'.worker.Ended? ==> s'.stopped
    requires s'.worker.Claimed? ==>
      s'.worker == s.worker || (s'.worker.fired == |s.changes| < |s'.changes| && s'.changes[|s.changes|].Fired?)
    ensures EventsInv(s')
  {
    assert forall i :: 0 <= i < |s.changes| ==> s'.changes[i] == s.changes[i];
  }

  lemma FinishedMeansStopped(stopped: bool, t: Setting, generation: nat, timedOut: bool, now: real)
    ensures LoopTop(stopped, t).Finished? ==> stopped
    ensures WakeIdle(stopped, t).Finished? ==> stopped
    ensures WakeTimed(stopped, t, generation, timedOut, now).Finished? ==> stopped
  {}

  lemma LeaveEvents(s: State, exit: Exit)
    requires EventsInv(s) && !s.worker.NotRunning? && (exit.Finished? ==> s.stopped)
    ensures EventsInv(Leave(s, exit))
  {
    var s' := Leave(s, exit);
    assert s'.events == s.events && s.changes <= s'.changes;
    assert s'.worker.Claimed? ==> s'.worker.fired == |s.changes| && s'.changes[|s.changes|].Fired?;
    hide EventsInv;
    QuietKept(s, s');
  }

  lemma WorkEvents(s: State, timedOut: bool)
    requires EventsInv(s)
    ensures EventsInv(DoWork(s, timedOut))
  {
    hide Up, Leave, LoopTop, WakeIdle, WakeTimed, EventsInv;
    var s' := DoWork(s, timedOut);
    match s.worker {
      case Starting =>
        FinishedMeansStopped(s.stopped, s.timer, 0, timedOut, s.clock);
        LeaveEvents(s, LoopTop(s.stopped, s.timer));
      case Sleeping(wait) =>
        if wait.SleepUntil? {
          FinishedMeansStopped(s.stopped, s.timer, wait.generation, timedOut, s.clock);
          LeaveEvents(s, WakeTimed(s.stopped, s.timer, wait.generation, timedOut, s.clock));
        } else {
          FinishedMeansStopped(s.stopped, s.timer, 0, timedOut, s.clock);
          LeaveEvents(s, WakeIdle(s.stopped, s.timer));
        }
      case Claimed(fired) => EventKept(s, s', Began(fired));
      case Executing(_) => QuietKept(s, s');
      case Announcing(_) => QuietKept(s, s');
      case _ =>
    }
  }

  lemma StepEvents(s: State, step: Step)
    requires EventsInv(s)
    ensures EventsInv(Do(s, step))
  {
    hide Up, DoWork;
    var s' := Do(s, step);
    if step.Work? {
      WorkEvents(s, step.timedOut);
    } else if step.Launch? && s.worker.NotRunning? {
      EventKept(s, s', Launched);
    } else if step.DoJoin? && (s.worker.Ended? || s.worker.NotRunning?) {
      EventKept(s, s', Joined);
    } else {
      QuietKept(s, s');
    }
  }

  lemma {:induction false} RunEvents(s: State, steps: seq<Step>)
    requires EventsInv(s)
    ensures EventsInv(Run(s, steps))
    decreases |steps|
  {
    if steps != [] {
      StepEvents(s, steps[0]);
      RunEvents(Do(s, steps[0]), steps[1..]);
    }
  }

  lemma {:induction false} UpSinceLaunch(events: seq<Event>, i: nat, j: nat)
    requires i < j <= |events| && events[i].Joined? && Up(events[..j])
    ensures exists k :: i < k < j && events[k].Launched?
    decreases j
  {
    assert events[..j][..j - 1] == events[..j - 1];
    if events[j - 1].Began? {
      UpSinceLaunch(events, i, j - 1);
    }
  }

  /** In every run, once Stop has joined the worker no action begins before the timer is started
      again; and every action that begins is that of a firing, each firing beginning at most one. */
  lemma NothingBeginsAfterStop(steps: seq<Step>)
    ensures var s := Run(INITIAL, steps);
      && (forall i, j :: 0 <= i < j < |s.events| && s.events[i].Joined? && s.events[j].Began? ==>
            exists k :: i < k < j && s.events[k].Launched?)
      && (forall j :: 0 <= j < |s.events| && s.events[j].Began? ==>
            s.events[j].fired < |s.changes| && s.changes[s.events[j].fired].Fired?)
      && (forall i, j :: 0 <= i < j < |s.events| && s.events[i].Began? && s.events[j].Began? ==>
            s.events[i].fired < s.events[j].fired)
  {
    RunEvents(INITIAL, steps);
    var s := Run(INITIAL, steps);
    forall i, j | 0 <= i < j < |s.events| && s.events[i].Joined? && s.events[j].Began?
      ensures exists k :: i < k < j && s.events[k].Launched?
    {
      UpSinceLaunch(s.events, i, j);
    }
  }

  // ---------------------------------------------------------------- no wake-up is lost

  /** What the wait the worker is in waits for. */
  predicate AwaitedHolds(s: State)
    requires s.worker.Sleeping?
  {
    if s.worker.wait.SleepUntil?
    then s.stopped || !s.timer.active || s.timer.generation != s.worker.wait.generation
    else s.stopped || s.timer.active
  }

  ghost predicate WakeUpDue(s: State) {
    s.asleep ==> s.worker.Sleeping? && (AwaitedHolds(s) ==> s.notices > 0)
  }

  lemma {:induction false} RunWakes(s: State, steps: seq<Step>)
    requires WakeUpDue(s)
    ensures WakeUpDue(Run(s, steps))
    decreases |steps|
  {
    if steps != [] {
      RunWakes(Do(s, steps[0]), steps[1..]);
    }
  }

  /** In every run, if the worker is blocked although what it waits for has come about, a notification
      that will wake it is under way. */
  lemma NoLostWakeUp(steps: seq<Step>)
    requires Run(INITIAL, steps).asleep
    ensures var s := Run(INITIAL, steps); s.worker.Sleeping? && (AwaitedHolds(s) ==> s.notices > 0)
  {
    RunWakes(INITIAL, steps);
  }

  /** What a worker that wakes does: it ends exactly if stopped; it fires exactly if the setting it waits for
      stands, the wait has timed out and the deadline has passed; while that setting stands otherwise, or while
      there still is none, it goes on sleeping; and else it turns to the timer as it is now. */
  lemma WakesExactly(s: State, timedOut: bool)
    requires s.worker == Sleeping(SleepIdle) || (s.worker.Sleeping? && s.worker.wait.SleepUntil?)
    ensures var s', wait := DoWork(s, timedOut), s.worker.wait;
      var stands := s.timer.active && (wait.SleepUntil? ==> wait.generation == s.timer.generation);
      if s.stopped then s' == s.(worker := Ended, asleep := false)
      else if wait.SleepUntil? && stands && timedOut && s.timer.deadline <= s.clock then
        && s'.worker == Claimed(|s.changes|) && !s'.timer.active
        && s'.changes == s.changes + [Fired(s.timer.generation, s.timer.action, s.clock)]
      else if wait.SleepUntil? == stands then s' == s.(asleep := true)
      else
        s' == s.(worker := Sleeping(if s.timer.active then SleepUntil(s.timer.generation) else SleepIdle),
                 asleep := true)
  {}

  /** A fired action begins, once, ends, and is announced, before the worker looks at the timer again. */
  lemma FiredActionRuns(s: State, a: bool, b: bool, c: bool)
    requires s.worker.Claimed?
    ensures var s1 := DoWork(s, a);
      && s1 == s.(worker := Executing(s.worker.fired), events := s.events + [Began(s.worker.fired)])
      && DoWork(s1, b) == s1.(worker := Announcing(s.worker.fired))
      && DoWork(DoWork(s1, b), c) == s1.(worker := Starting)
  {}

  // ---------------------------------------------------------------- a due timer fires

  function WorkAlone(s: State, n: nat): State
    decreases n
  {
    if n == 0 then s else WorkAlone(DoWork(s, true), n - 1)
  }

  function FiredNow(s: State): seq<Change> {
    s.changes + [Fired(s.timer.generation, s.timer.action, s.clock)]
  }

  /** Without interference the worker, once awake, needs two more sections to fire. */
  lemma StartingFires(s: State)
    requires Due(s) && s.worker.Starting?
    ensures WorkAlone(s, 2).changes == FiredNow(s)
  {
    assert WorkAlone(s, 2) == WorkAlone(DoWork(s, true), 1) == WorkAlone(DoWork(DoWork(s, true), true), 0);
  }

  /** So does a sleeping one: its wait ends with a firing, or back at the top of the loop. */
  lemma SleepingFires(s: State)
    requires Due(s) && s.worker.Sleeping?
    ensures WorkAlone(s, 1).changes == FiredNow(s) || WorkAlone(s, 2).changes == FiredNow(s)
  {
    var s1 := DoWork(s, true);
    assert WorkAlone(s, 1) == WorkAlone(s1, 0) == s1;
    assert WorkAlone(s, 2) == WorkAlone(s1, 1) == WorkAlone(DoWork(s1, true), 0);
  }

  lemma WorkAloneStep(s: State, n: nat)
    ensures WorkAlone(s, n + 1) == WorkAlone(DoWork(s, true), n)
  {
    hide DoWork;
  }

  /** A worker busy with an action is back at the top of its loop within three sections, and nothing has changed. */
  lemma BusyFires(s: State) returns (n: nat)
    requires Due(s) && (s.worker.Claimed? || s.worker.Executing? || s.worker.Announcing? || s.worker.Starting?)
    ensures 2 <= n <= 5 && WorkAlone(s, n).changes == FiredNow(s)
    ensures s.worker.Starting? ==> n == 2
    ensures s.worker.Announcing? ==> n == 3
    ensures s.worker.Executing? ==> n == 4
    decreases if s.worker.Claimed? then 3 else if s.worker.Executing? then 2 else if s.worker.Announcing? then 1 else 0
  {
    if s.worker.Starting? {
      StartingFires(s);
      n := 2;
    } else {
      hide LoopTop, Leave, WakeIdle, WakeTimed;
      var m := BusyFires(DoWork(s, true));
      WorkAloneStep(s, m);
      n := m + 1;
    }
  }

  /** If the deadline of an active timer has passed and nobody interferes, the running worker fires
      that setting within five sections, whatever it was doing. */
  lemma DueTimerFires(steps: seq<Step>)
    requires Due(Run(INITIAL, steps)) && !Run(INITIAL, steps).worker.NotRunning?
    ensures var s := Run(INITIAL, steps);
      exists n :: 1 <= n <= 5 && WorkAlone(s, n).changes == FiredNow(s)
  {
    RunEvents(INITIAL, steps);
    var s := Run(INITIAL, steps);
    assert !s.worker.Ended?;
    hide Run, WorkAlone, DoWork, FiredNow, EventsInv;
    if s.worker.Sleeping? {
      SleepingFires(s);
    } else {
      var n := BusyFires(s);
    }
  }

  /** Once stopped, a running worker ends within four sections, fires nothing any more, and can be joined. */
  lemma StoppedWorkerEnds(s: State) returns (n: nat)
    requires s.stopped && !s.worker.NotRunning?
    requires s.worker.Sleeping? ==> s.worker.wait.SleepIdle? || s.worker.wait.SleepUntil?
    ensures n <= 4 && WorkAlone(s, n).worker.Ended?
    ensures WorkAlone(s, n).changes == s.changes
    ensures Do(WorkAlone(s, n), DoJoin).worker.NotRunning?
    ensures s.worker.Ended? ==> n == 0
    ensures s.worker.Starting? || s.worker.Sleeping? ==> n <= 1
    ensures s.worker.Announcing? ==> n <= 2
    ensures s.worker.Executing? ==> n <= 3
    decreases match s.worker
      case Ended => 0
      case Starting => 1
      case Sleeping(_) => 1
      case Announcing(_) => 2
      case Executing(_) => 3
      case _ => 4
  {
    if s.worker.Ended? {
      n := 0;
    } else {
      var m := StoppedWorkerEnds(DoWork(s, true));
      WorkAloneStep(s, m);
      n := m + 1;
    }
  }

  /** So Stop ends the worker, whatever it is doing, with no firing from then on; and a timer started again looks at
      its setting. */
  lemma StopThenStart(s: State) returns (n: nat)
    requires !s.worker.NotRunning?
    requires s.worker.Sleeping? ==> s.worker.wait.SleepIdle? || s.worker.wait.SleepUntil?
    ensures n <= 4
    ensures var end := Do(WorkAlone(Do(s, DoStop), n), DoJoin);
      && end.worker.NotRunning? && !end.timer.active && end.changes == s.changes + [Stopped]
      && Do(end, Launch).worker.Starting? && !Do(end, Launch).stopped && Do(end, Launch).timer == end.timer
  {
    var stopping := Do(s, DoStop);
    n := StoppedWorkerEnds(stopping);
    StoppedTimerStays(stopping, n);
    hide WorkAlone;
  }

  lemma {:induction false} StoppedTimerStays(s: State, n: nat)
    requires s.stopped && !s.timer.active
    ensures WorkAlone(s, n).stopped && WorkAlone(s, n).timer == s.timer
    decreases n
  {
    if n > 0 {
      StoppedTimerStays(DoWork(s, true), n - 1);
      WorkAloneStep(s, n - 1);
    }
  }
}
