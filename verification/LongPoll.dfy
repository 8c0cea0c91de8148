/** Long polls over the version counters, together with the sleep timer that announces its changes
    through them (src/remoteControlCommands/subscribeOnAIMPStateUpdateEventCommand.cpp:30-56,
    src/stateUpdateEvents.cpp:192-214, src/sleepTimer.cpp:98-161). */
module LongPoll {
  import opened SleepTimer
  import opened StateEvents
  import T = TimerRuns

  /** One poll, from the sampling of the version to its reply. */
  datatype Poll =
    | Waiting(kind: Kind, seen: nat)
    | Woken(kind: Kind, seen: nat, version: nat, ok: bool)    // Wait has returned
    | Resumed(kind: Kind, seen: nat, version: nat, ok: bool)  // the reply will be computed
    | Refused                                                 // "server is stopping"
    | UnknownEvent
    | ReplyTimer(seen: nat, version: nat, ok: bool, reading: Reading, at: real, upTo: nat)
    | Replied(kind: Kind)

  datatype State = State(
    core: T.State,
    events: Events,
    polls: map<nat, Poll>,
    owed: set<nat>,        // timer changes their makers have yet to announce
    announced: seq<nat>,   // by each announcement of the timer, the change that caused it
    asleep: set<nat>,      // polls blocked in their wait
    notices: nat)          // calls of notify_all under way

  datatype Step =
    | Core(step: T.Step)
    | Announce(change: nat)      // a client of Set or Cancel tells the listeners
    | Notify(kind: Kind)         // a player event of another kind
    | StopEvents
    | NotifyAll
    | StartPoll(id: nat, event: string)
    | Wake(id: nat, timedOut: bool)
    | CheckStopped(id: nat)
    | Reply(id: nat)

  const INITIAL := State(T.INITIAL, Events([0, 0, 0, 0], false), map[], {}, [], {}, 0)

  function TimerNotified(s: State, change: nat): State {
    if s.events.Valid()
    then s.(events := s.events.Notified(Timer), notices := s.notices + 1,
            announced := s.announced + [change], owed := s.owed - {change})
    else s
  }

  /** The timer moves; Set and Cancel owe an announcement, which never comes if the timer has no
      listeners attached, and the worker makes its own after the action. */
  function DoCore(s: State, step: T.Step): State {
    var core := T.Do(s.core, step);
    if step.Work? && s.core.worker.Announcing? then
      TimerNotified(s, s.core.worker.fired).(core := core)
    else if step.DoSet? || step.DoCancel? then
      s.(core := core, owed := s.owed + {|s.core.changes|})
    else s.(core := core)
  }

  function DoPoll(s: State, id: nat, poll: Poll, step: Step): Poll
    requires s.events.Valid()
  {
    match poll
    case Waiting(kind, seen) =>
      if !step.Wake? then poll
      else
        var outcome := s.events.Outcome(kind, seen, step.timedOut);
        if outcome.None? then poll else Woken(kind, seen, s.events.Version(kind), outcome.value)
    case Woken(kind, seen, version, ok) =>
      if !step.CheckStopped? then poll
      else if !ok && s.events.stopped then Refused
      else Resumed(kind, seen, version, ok)
    case Resumed(kind, seen, version, ok) =>
      if !step.Reply? then poll
      else if kind.Timer? then
        ReplyTimer(seen, version, ok, ReadAt(s.core.timer, s.core.clock), s.core.clock, |s.core.changes|)
      else Replied(kind)
    case _ => poll
  }

  function Do(s: State, step: Step): State {
    match step
    case Core(c) => DoCore(s, c)
    case Announce(change) => if change in s.owed then TimerNotified(s, change) else s
    case Notify(kind) =>
      if kind.Timer? || !s.events.Valid() then s
      else s.(events := s.events.Notified(kind), notices := s.notices + 1)
    case StopEvents => s.(events := s.events.(stopped := true), notices := s.notices + 1)
    case NotifyAll => if s.notices > 0 then s.(asleep := {}, notices := s.notices - 1) else s
    case StartPoll(id, event) =>
      if id in s.polls || !s.events.Valid() then s
      else if KindFor(event).None? then s.(polls := s.polls[id := UnknownEvent])
      else
        var kind := KindFor(event).value;
        s.(polls := s.polls[id := Waiting(kind, s.events.Version(kind))],
           asleep := if s.events.stopped then s.asleep else s.asleep + {id})
    case Wake(id, _) => PollStep(s, id, step)
    case CheckStopped(id) => PollStep(s, id, step)
    case Reply(id) => PollStep(s, id, step)
  }

  /** A poll that goes on waiting blocks again. */
  function PollStep(s: State, id: nat, step: Step): State {
    if id in s.polls && s.events.Valid() then
      var poll := DoPoll(s, id, s.polls[id], step);
      s.(polls := s.polls[id := poll],
         asleep := if !step.Wake? then s.asleep else if poll.Waiting? then s.asleep + {id} else s.asleep - {id})
    else s
  }

  function Run(s: State, steps: seq<Step>): State
    decreases |steps|
  {
    if steps == [] then s else Run(Do(s, steps[0]), steps[1..])
  }

  // ---------------------------------------------------------------- what every step keeps

  ghost predicate PollInv(s: State, poll: Poll)
    requires s.events.Valid()
  {
    match poll
    case Waiting(kind, seen) => seen <= s.events.Version(kind)
    case Woken(kind, seen, version, ok) => WokenInv(s, kind, seen, version, ok)
    case Resumed(kind, seen, version, ok) => WokenInv(s, kind, seen, version, ok)
    case ReplyTimer(seen, version, ok, reading, at, upTo) =>
      && upTo <= |s.core.changes|
      && reading == ReadAt(T.Replay(s.core.changes[..upTo]), at)
      && seen <= version <= |s.announced|
      && (forall n :: seen <= n < version ==> s.announced[n] < upTo)
      && (ok ==> seen < version)
    case _ => true
  }

  ghost predicate WokenInv(s: State, kind: Kind, seen: nat, version: nat, ok: bool)
    requires s.events.Valid()
  {
    seen <= version <= s.events.Version(kind) && (ok ==> seen < version)
  }

  ghost predicate Inv(s: State) {
    Bookkeeping(s) && forall id :: id in s.polls ==> PollInv(s, s.polls[id])
  }

  ghost predicate Bookkeeping(s: State) {
    && s.events.Valid()
    && T.ChangesInv(s.core)
    && s.events.Version(Timer) == |s.announced|
    && (forall n :: 0 <= n < |s.announced| ==> s.announced[n] < |s.core.changes|)
    && (forall c :: c in s.owed ==> c < |s.core.changes|)
    && FiredExists(s.core)
  }

  ghost predicate FiredExists(c: T.State) {
    match c.worker
    case Claimed(fired) => fired < |c.changes| && c.changes[fired].Fired?
    case Executing(fired) => fired < |c.changes| && c.changes[fired].Fired?
    case Announcing(fired) => fired < |c.changes| && c.changes[fired].Fired?
    case _ => true
  }

  /** Nothing is ever taken back: changes, announcements and versions only grow. */
  ghost predicate Grows(s: State, s': State) {
    && s.events.Valid() && s'.events.Valid()
    && s.core.changes <= s'.core.changes
    && s.announced <= s'.announced
    && (forall kind :: s.events.Version(kind) <= s'.events.Version(kind))
    && (s.events.stopped ==> s'.events.stopped)
  }

  lemma StepGrows(s: State, step: Step)
    requires Bookkeeping(s)
    ensures Grows(s, Do(s, step))
  {
    if step.Core? {
      CoreGrows(s, step.step);
      hide Bookkeeping, Grows, DoCore;
    } else {
      hide DoCore, DoPoll, T.Do, T.ChangesInv;
    }
  }

  lemma CoreGrows(s: State, step: T.Step)
    requires Bookkeeping(s)
    ensures Grows(s, DoCore(s, step))
  {
    CoreKept(s, step);
    hide T.ChangesInv, T.Do;
  }

  lemma PollGrows(s: State, s': State, poll: Poll)
    requires Grows(s, s') && PollInv(s, poll)
    ensures PollInv(s', poll)
  {
    if poll.ReplyTimer? {
      assert s'.core.changes[..poll.upTo] == s.core.changes[..poll.upTo];
    }
  }

  lemma CoreKept(s: State, step: T.Step)
    requires Bookkeeping(s)
    ensures T.ChangesInv(T.Do(s.core, step)) && FiredExists(T.Do(s.core, step))
    ensures s.core.changes <= T.Do(s.core, step).changes
  {
    hide T.ChangesInv, T.Do, FiredExists;
    T.StepChanges(s.core, step);
    FiringsKept(s.core, step);
  }

  lemma FiringsKept(c: T.State, step: T.Step)
    requires FiredExists(c)
    ensures FiredExists(T.Do(c, step)) && c.changes <= T.Do(c, step).changes
  {
    hide LoopTop, WakeIdle, WakeTimed;
  }

  lemma PollStepKept(s: State, id: nat, step: Step)
    requires Inv(s) && id in s.polls
    ensures PollInv(s, DoPoll(s, id, s.polls[id], step))
  {
    var poll := s.polls[id];
    assert PollInv(s, poll);
    if poll.Resumed? && step.Reply? && poll.kind.Timer? {
      assert s.core.changes[..|s.core.changes|] == s.core.changes;
    }
  }

  lemma CoreBookkeeping(s: State, step: T.Step)
    requires Bookkeeping(s)
    ensures Bookkeeping(DoCore(s, step))
  {
    CoreKept(s, step);
    if !step.Work? && (step.DoSet? || step.DoCancel?) {
      assert |s.core.changes| < |T.Do(s.core, step).changes|;
    }
    hide T.ChangesInv, T.Do;
  }

  lemma BookkeepingKept(s: State, step: Step)
    requires Bookkeeping(s)
    ensures Bookkeeping(Do(s, step))
  {
    if step.Core? {
      CoreBookkeeping(s, step.step);
      hide Bookkeeping, DoCore;
    } else {
      hide DoCore, DoPoll, T.Do, T.ChangesInv, FiredExists;
    }
  }

  lemma StepKept(s: State, step: Step)
    requires Inv(s)
    ensures Inv(Do(s, step))
  {
    var s' := Do(s, step);
    StepGrows(s, step);
    BookkeepingKept(s, step);
    hide Grows, Bookkeeping, T.Do;
    forall id | id in s'.polls
      ensures PollInv(s', s'.polls[id])
    {
      PollKept(s, step, id);
    }
  }

  lemma PollKept(s: State, step: Step, id: nat)
    requires Inv(s) && Grows(s, Do(s, step)) && id in Do(s, step).polls
    ensures PollInv(Do(s, step), Do(s, step).polls[id])
  {
    var s' := Do(s, step);
    hide T.Do;
    if id in s.polls && s'.polls[id] == s.polls[id] {
      PollGrows(s, s', s.polls[id]);
    } else if id in s.polls && !step.StartPoll? {
      PollStepKept(s, id, step);
      PollGrows(s, s', s'.polls[id]);
    }
  }

  lemma {:induction false} RunKept(s: State, steps: seq<Step>)
    requires Inv(s)
    ensures Inv(Run(s, steps)) && Grows(s, Run(s, steps))
    decreases |steps|
  {
    if steps != [] {
      StepKept(s, steps[0]);
      StepGrows(s, steps[0]);
      RunKept(Do(s, steps[0]), steps[1..]);
    }
  }

  // ---------------------------------------------------------------- no wake-up is lost

  ghost predicate WakeUpDue(s: State, id: nat) {
    && s.events.Valid() && id in s.polls && s.polls[id].Waiting?
    && (s.events.stopped || s.events.Version(s.polls[id].kind) != s.polls[id].seen ==> s.notices > 0)
  }

  lemma StepWakes(s: State, step: Step, id: nat)
    requires s.events.Valid()
    requires id in s.asleep ==> WakeUpDue(s, id)
    ensures Do(s, step).events.Valid()
    ensures id in Do(s, step).asleep ==> WakeUpDue(Do(s, step), id)
  {
    hide T.Do;
  }

  lemma {:induction false} RunWakes(s: State, steps: seq<Step>, id: nat)
    requires s.events.Valid()
    requires id in s.asleep ==> WakeUpDue(s, id)
    ensures id in Run(s, steps).asleep ==> WakeUpDue(Run(s, steps), id)
    decreases |steps|
  {
    if steps != [] {
      StepWakes(s, steps[0], id);
      RunWakes(Do(s, steps[0]), steps[1..], id);
    }
  }

  /** In every run, if a poll is blocked although its kind was announced after it sampled, or the events
      are stopped, a notification that will wake it is under way. */
  lemma BlockedPollIsWoken(steps: seq<Step>, id: nat)
    requires id in Run(INITIAL, steps).asleep
    ensures WakeUpDue(Run(INITIAL, steps), id)
  {
    RunWakes(INITIAL, steps, id);
  }

  lemma InitialInv()
    ensures Inv(INITIAL)
  {}

  // ---------------------------------------------------------------- what polls are promised

  /** In every run: once an announcement of its kind has been made after a poll sampled the version,
      the poll's next wake-up, even a timeout, ends the wait, and with success unless the events have
      been stopped. */
  lemma NoLostWakeUp(before: seq<Step>, announcement: Step, after: seq<Step>, id: nat, timedOut: bool)
    requires var s := Run(INITIAL, before);
      && id in s.polls && s.polls[id].Waiting?
      && s.events.Valid() && Do(s, announcement).events.Valid()
      && Do(s, announcement).events.Version(s.polls[id].kind) > s.events.Version(s.polls[id].kind)
    requires var s, s' := Run(INITIAL, before), Run(Do(Run(INITIAL, before), announcement), after);
      id in s'.polls && s'.polls[id] == s.polls[id]
    ensures var s' := Run(Do(Run(INITIAL, before), announcement), after);
      var woken := Do(s', Wake(id, timedOut)).polls[id];
      woken.Woken? && woken.ok == !s'.events.stopped && woken.version > woken.seen
  {
    InitialInv();
    RunKept(INITIAL, before);
    var s := Run(INITIAL, before);
    StepKept(s, announcement);
    var s1 := Do(s, announcement);
    RunKept(s1, after);
    var s' := Run(s1, after);
    var kind := s.polls[id].kind;
    assert s.polls[id].seen <= s.events.Version(kind) by {
      assert PollInv(s, s.polls[id]);
    }
    assert s1.events.Version(kind) <= s'.events.Version(kind);
    hide Run, Inv, Grows, Do;
    ChangedPollWakes(s', id, timedOut);
  }

  lemma ChangedPollWakes(s: State, id: nat, timedOut: bool)
    requires s.events.Valid() && id in s.polls && s.polls[id].Waiting?
    requires s.events.Version(s.polls[id].kind) > s.polls[id].seen
    ensures var woken := Do(s, Wake(id, timedOut)).polls[id];
      woken.Woken? && woken.ok == !s.events.stopped && woken.version > woken.seen
  {
    hide DoCore;
  }

  /** A poll asked for by one of the four names waits for that kind, from its present version on; any other name
      is refused at once. */
  lemma PollStarts(s: State, id: nat, event: string)
    requires s.events.Valid() && id !in s.polls
    ensures var poll := Do(s, StartPoll(id, event)).polls[id];
      && (event == "control_panel_state_change" ==> poll == Waiting(ControlPanel, s.events.Version(ControlPanel)))
      && (event == "playlists_content_change" ==> poll == Waiting(Playlists, s.events.Version(Playlists)))
      && (event == "queue_content_change" ==> poll == Waiting(Queue, s.events.Version(Queue)))
      && (event == "timer_state_change" ==> poll == Waiting(Timer, s.events.Version(Timer)))
      && (poll == UnknownEvent <==>
            && event != "control_panel_state_change" && event != "playlists_content_change"
            && event != "queue_content_change" && event != "timer_state_change")
  {
    hide DoCore, PollStep;
  }

  /** What a waiting poll that wakes does: refused once stopped, successful if its version has changed, ended
      without success by a time-out, and else asleep again; no other poll moves. */
  lemma WakesExactly(s: State, id: nat, timedOut: bool)
    requires s.events.Valid() && id in s.polls && s.polls[id].Waiting?
    ensures var s', kind, seen := Do(s, Wake(id, timedOut)), s.polls[id].kind, s.polls[id].seen;
      var version := s.events.Version(kind);
      if s.events.stopped || version != seen || timedOut
      then && s'.polls == s.polls[id := Woken(kind, seen, version, !s.events.stopped && version != seen)]
           && s'.asleep == s.asleep - {id}
      else s' == s.(asleep := s.asleep + {id})
  {
    assert s.polls[id := s.polls[id]] == s.polls;
    hide DoCore;
  }

  /** Only its own steps move a poll. */
  predicate Moves(step: Step, id: nat) {
    (step.Wake? || step.CheckStopped? || step.Reply?) && step.id == id
  }

  lemma {:induction false} OthersLeavePoll(s: State, steps: seq<Step>, id: nat)
    requires s.events.Valid() && id in s.polls && forall i :: 0 <= i < |steps| ==> !Moves(steps[i], id)
    ensures var s' := Run(s, steps); s'.events.Valid() && id in s'.polls && s'.polls[id] == s.polls[id]
    decreases |steps|
  {
    if steps != [] {
      OtherLeavesPoll(s, steps[0], id);
      hide Do;
      OthersLeavePoll(Do(s, steps[0]), steps[1..], id);
    }
  }

  lemma OtherLeavesPoll(s: State, step: Step, id: nat)
    requires s.events.Valid() && id in s.polls && !Moves(step, id)
    ensures var s' := Do(s, step); s'.events.Valid() && id in s'.polls && s'.polls[id] == s.polls[id]
  {
    hide T.Do, DoPoll;
  }

  /** What the client of a poll is answered; the reading is that of this state. */
  ghost predicate Answered(s: State, id: nat, was: Poll)
    requires was.Woken? || was.Resumed?
  {
    && id in s.polls
    && s.polls[id] ==
         if was.kind.Timer?
         then ReplyTimer(was.seen, was.version, was.ok, ReadAt(s.core.timer, s.core.clock), s.core.clock,
                         |s.core.changes|)
         else Replied(was.kind)
  }

  lemma ResumedIsAnswered(s: State, id: nat)
    requires s.events.Valid() && id in s.polls && s.polls[id].Resumed?
    ensures Answered(Do(s, Reply(id)), id, s.polls[id])
  {
    hide DoCore, ReadAt;
  }

  /** A poll whose wait has ended is refused exactly if it ended without success and the events are stopped when
      it checks; otherwise it is answered, a timer poll with the timer as it is at the reply. */
  lemma WokenPollIsAnswered(s: State, between: seq<Step>, id: nat)
    requires s.events.Valid() && id in s.polls && s.polls[id].Woken?
    requires forall i :: 0 <= i < |between| ==> !Moves(between[i], id)
    ensures var s1 := Do(s, CheckStopped(id));
      if !s.polls[id].ok && s.events.stopped then id in s1.polls && s1.polls[id] == Refused
      else Answered(Do(Run(s1, between), Reply(id)), id, s.polls[id])
  {
    var s1 := Do(s, CheckStopped(id));
    assert s1.events.Valid() && id in s1.polls;
    hide DoCore, ReadAt, Answered, Run;
    OthersLeavePoll(s1, between, id);
    if s1.polls[id].Resumed? {
      ResumedIsAnswered(Run(s1, between), id);
      hide Do;
      AnsweredAlike(Do(Run(s1, between), Reply(id)), id, s1.polls[id], s.polls[id]);
    }
  }

  lemma AnsweredAlike(s: State, id: nat, a: Poll, b: Poll)
    requires a.Resumed? && b.Woken? && b == Woken(a.kind, a.seen, a.version, a.ok)
    ensures Answered(s, id, a) ==> Answered(s, id, b)
  {
    hide ReadAt;
  }

  /** A poll for which nothing happens ends by its time-out, and is answered with the state as it is unless the
      events are stopped meanwhile. */
  lemma IdlePollIsAnswered(s: State, a: seq<Step>, b: seq<Step>, id: nat)
    requires s.events.Valid() && id in s.polls && s.polls[id].Waiting? && !s.events.stopped
    requires s.events.Version(s.polls[id].kind) == s.polls[id].seen
    requires forall i :: 0 <= i < |a| ==> !Moves(a[i], id)
    requires forall i :: 0 <= i < |b| ==> !Moves(b[i], id)
    requires !Run(Do(s, Wake(id, true)), a).events.stopped
    ensures var kind, seen := s.polls[id].kind, s.polls[id].seen;
      var checked := Do(Run(Do(s, Wake(id, true)), a), CheckStopped(id));
      Answered(Do(Run(checked, b), Reply(id)), id, Woken(kind, seen, seen, false))
  {
    WakesExactly(s, id, true);
    var s1 := Do(s, Wake(id, true));
    assert s1.events == s.events;
    hide Run, Do, Answered;
    OthersLeavePoll(s1, a, id);
    WokenPollIsAnswered(Run(s1, a), b, id);
  }

  /** In every run: once the events are stopped they stay stopped, no poll goes on waiting when it
      wakes, and every waiting poll is refused, however it wakes. */
  lemma NoPollOutlivesStop(before: seq<Step>, after: seq<Step>, id: nat, timedOut: bool)
    requires var s := Run(Do(Run(INITIAL, before), StopEvents), after); id in s.polls && s.polls[id].Waiting?
    ensures var s := Run(Do(Run(INITIAL, before), StopEvents), after);
      && s.events.stopped
      && Do(Do(s, Wake(id, timedOut)), CheckStopped(id)).polls[id] == Refused
  {
    var s := Run(INITIAL, before);
    var stopped := Do(s, StopEvents);
    assert stopped.events.stopped;
    hide Run, Do, Inv;
    InitialInv();
    RunKept(INITIAL, before);
    StepKept(s, StopEvents);
    RunKept(stopped, after);
    StoppedPollRefused(Run(stopped, after), id, timedOut);
  }

  lemma StoppedPollRefused(s: State, id: nat, timedOut: bool)
    requires s.events.Valid() && s.events.stopped && id in s.polls && s.polls[id].Waiting?
    ensures Do(Do(s, Wake(id, timedOut)), CheckStopped(id)).polls[id] == Refused
  {
    WakesExactly(s, id, timedOut);
    hide DoCore;
  }

  /** An event of the player counts one more notification of its kind and of no other. */
  lemma EventCounts(s: State, kind: Kind)
    requires s.events.Valid() && !kind.Timer?
    ensures var s' := Do(s, Notify(kind));
      && s'.events.Valid() && s'.notices == s.notices + 1 && s'.polls == s.polls
      && forall k :: s'.events.Version(k) == s.events.Version(k) + if k == kind then 1 else 0
  {
    hide DoCore, PollStep;
  }

  /** In every run: the reply of a timer poll is the state of the timer after all changes up to some
      point, and that point is past every change announced between the poll's sample and its waking;
      a poll that did not time out was woken by at least one. */
  lemma TimerReplyIsFresh(steps: seq<Step>, id: nat)
    requires var s := Run(INITIAL, steps); id in s.polls && s.polls[id].ReplyTimer?
    ensures var s := Run(INITIAL, steps); var p := s.polls[id];
      && p.upTo <= |s.core.changes| && p.seen <= p.version <= |s.announced|
      && p.reading == ReadAt(T.Replay(s.core.changes[..p.upTo]), p.at)
      && (forall n :: p.seen <= n < p.version ==> s.announced[n] < p.upTo)
      && (p.ok ==> p.seen < p.version)
  {
    InitialInv();
    RunKept(INITIAL, steps);
    assert PollInv(Run(INITIAL, steps), Run(INITIAL, steps).polls[id]);
  }

  /** Every change owed or announced is a change of the timer, and a fired setting is announced by the
      worker itself, after its action. */
  lemma FiringIsAnnounced(steps: seq<Step>, timedOut: bool)
    requires Run(INITIAL, steps).core.worker.Announcing?
    ensures var s := Run(INITIAL, steps); var s' := Do(s, Core(T.Work(timedOut)));
      && s'.announced == s.announced + [s.core.worker.fired]
      && s.core.worker.fired < |s.core.changes|
      && s'.events.Valid() && s.events.Valid() && s'.events.Version(Timer) == s.events.Version(Timer) + 1
  {
    InitialInv();
    RunKept(INITIAL, steps);
  }

  /** In every run, setting or cancelling the timer owes its listeners an announcement; making it, whatever has
      happened meanwhile, counts one more notification of the timer and no other. */
  lemma SettingIsAnnounced(before: seq<Step>, step: T.Step, between: seq<Step>)
    requires step.DoSet? || step.DoCancel?
    requires var change := |Run(INITIAL, before).core.changes|;
      forall i :: 0 <= i < |between| ==> between[i] != Announce(change)
    ensures var change := |Run(INITIAL, before).core.changes|;
      var s1 := Run(Do(Run(INITIAL, before), Core(step)), between);
      var s2 := Do(s1, Announce(change));
      && s1.events.Valid() && s2.events.Valid()
      && s2.announced == s1.announced + [change] && s2.notices == s1.notices + 1
      && forall kind :: s2.events.Version(kind) == s1.events.Version(kind) + if kind.Timer? then 1 else 0
  {
    InitialInv();
    RunKept(INITIAL, before);
    var s := Run(INITIAL, before);
    var change := |s.core.changes|;
    BookkeepingKept(s, Core(step));
    ChangeOwed(s, step);
    var s1 := Do(s, Core(step));
    hide Run, Do, Bookkeeping, Inv, Grows;
    OwedStays(s1, between, change);
    AnnounceCounts(Run(s1, between), change);
  }

  lemma ChangeOwed(s: State, step: T.Step)
    requires Bookkeeping(s) && (step.DoSet? || step.DoCancel?)
    ensures Owes(Do(s, Core(step)), |s.core.changes|)
  {}

  /** The change is the timer's, no firing, and still to be announced by its maker. */
  ghost predicate Owes(s: State, change: nat) {
    change in s.owed && change < |s.core.changes| && !s.core.changes[change].Fired?
  }

  lemma AnnounceCounts(s: State, change: nat)
    requires s.events.Valid() && change in s.owed
    ensures var s' := Do(s, Announce(change));
      && s'.events.Valid() && s'.announced == s.announced + [change] && s'.notices == s.notices + 1
      && forall kind :: s'.events.Version(kind) == s.events.Version(kind) + if kind.Timer? then 1 else 0
  {
    hide DoCore, PollStep;
  }

  lemma {:induction false} OwedStays(s: State, steps: seq<Step>, change: nat)
    requires Bookkeeping(s) && Owes(s, change)
    requires forall i :: 0 <= i < |steps| ==> steps[i] != Announce(change)
    ensures Run(s, steps).events.Valid() && change in Run(s, steps).owed
    decreases |steps|
  {
    if steps == [] {
      hide T.ChangesInv;
    } else {
      hide Do, Bookkeeping, Owes;
      BookkeepingKept(s, steps[0]);
      OwedStaysOnce(s, steps[0], change);
      OwedStays(Do(s, steps[0]), steps[1..], change);
    }
  }

  lemma OwedStaysOnce(s: State, step: Step, change: nat)
    requires Bookkeeping(s) && Owes(s, change) && step != Announce(change)
    ensures Owes(Do(s, step), change)
  {
    hide DoPoll, T.ChangesInv;
    if step.Core? {
      CoreKept(s, step.step);
      hide T.Do;
    } else {
      hide DoCore;
    }
  }
}
