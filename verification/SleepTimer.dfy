/** The sleep timer (src/sleepTimer.cpp): what its critical sections do to the shared fields. */
module SleepTimer {
  import opened Texts

  /** The fields guarded by the timer's mutex, apart from the stop flag. */
  datatype Setting = Setting(active: bool, action: Text, deadline: real, generation: nat)

  /** What a reader sees: whether the timer runs, what it will do, and in how many seconds. */
  datatype Reading = Reading(active: bool, action: Text, expiresIn: int)

  const UNSET := Setting(false, [], 0.0, 0)

  function AfterSet(t: Setting, now: real, action: Text, delay: int): Setting {
    Setting(true, action, now + delay as real, t.generation + 1)
  }

  function Inactive(t: Setting): Setting {
    t.(active := false)
  }

  /** Seconds left, rounded to the nearest whole number, never below zero. */
  function SecondsLeft(deadline: real, now: real): (s: int)
    ensures s >= 0
    ensures now >= deadline ==> s == 0
    ensures now < deadline ==> s as real - 0.5 <= deadline - now < s as real + 0.5
  {
    if now >= deadline then 0 else (deadline - now + 0.5).Floor
  }

  function ReadAt(t: Setting, now: real): Reading {
    if t.active then Reading(true, t.action, SecondsLeft(t.deadline, now)) else Reading(false, [], 0)
  }

  /** A client that sets the timer reads it counting down from the delay, until it is cancelled or has fired. */
  lemma CountsDown(t: Setting, now: real, action: Text, delay: int, passed: nat)
    ensures ReadAt(AfterSet(t, now, action, delay), now + passed as real) ==
      Reading(true, action, if delay > passed then delay - passed else 0)
    ensures ReadAt(Inactive(t), now) == Reading(false, [], 0)
  {
    var left := SecondsLeft(now + delay as real, now + passed as real);
    if delay > passed {
      assert (now + delay as real) - (now + passed as real) == (delay - passed) as real;
      assert left as real - 0.5 <= (delay - passed) as real < left as real + 0.5;
    }
  }

  /** How the worker leaves a critical section. */
  datatype Exit =
    | Finished                              // the loop has ended
    | SleepIdle                             // waiting for a setting
    | SleepUntil(generation: nat)           // waiting for the deadline of one setting
    | Fire(generation: nat, action: Text)   // leaving the lock to carry out the action

  /** The top of the worker's loop. */
  function LoopTop(stopped: bool, t: Setting): Exit {
    if stopped then Finished else if t.active then SleepUntil(t.generation) else SleepIdle
  }

  /** Waking from the idle wait, for whatever reason. */
  function WakeIdle(stopped: bool, t: Setting): Exit {
    if stopped || t.active then LoopTop(stopped, t) else SleepIdle
  }

  /** Waking from the timed wait, by a notification, spuriously, or because the wait reports a timeout. */
  function WakeTimed(stopped: bool, t: Setting, generation: nat, timedOut: bool, now: real): Exit {
    if stopped || !t.active || t.generation != generation then LoopTop(stopped, t)
    else if !timedOut then SleepUntil(generation)
    else if now < t.deadline then LoopTop(stopped, t)
    else Fire(t.generation, t.action)
  }

  class SleepTimer {
    var stopped: bool
    var active: bool
    var action: Text
    var deadline: real
    var generation: nat

    function Current(): Setting
      reads this
    {
      Setting(active, action, deadline, generation)
    }

    constructor ()
      ensures !stopped && Current() == UNSET
    {
      stopped, active, action, deadline, generation := false, false, [], 0.0, 0;
    }

    /** The locked part of Stop. */
    method MarkStopped()
      modifies this
      ensures stopped && Current() == Inactive(old(Current()))
    {
      stopped := true;
      active := false;
    }

    method Get(now: real) returns (r: Reading)
      ensures r == ReadAt(Current(), now)
      ensures r.active == active
    {
      if active {
        var left := if now >= deadline then 0 else (deadline - now + 0.5).Floor;
        r := Reading(true, action, left);
      } else {
        r := Reading(false, [], 0);
      }
    }

    /** The locked part of Set. */
    method Set(now: real, newAction: Text, delay: int)
      modifies this
      ensures stopped == old(stopped) && Current() == AfterSet(old(Current()), now, newAction, delay)
    {
      active := true;
      action := newAction;
      deadline := now + delay as real;
      generation := generation + 1;
    }

    /** The locked part of Cancel. */
    method Cancel()
      modifies this
      ensures stopped == old(stopped) && Current() == Inactive(old(Current()))
    {
      active := false;
    }

    /** The worker, from the top of its loop to its next wait or to the end. */
    method EnterLoop() returns (exit: Exit)
      ensures exit == LoopTop(stopped, Current())
    {
      if stopped {
        return Finished;
      }
      if !active {
        return SleepIdle;
      }
      return SleepUntil(generation);
    }

    /** The worker, from waking in the idle wait to its next wait or to the end. */
    method WakeFromIdleWait() returns (exit: Exit)
      ensures exit == WakeIdle(stopped, Current())
    {
      if stopped || active {
        exit := EnterLoop();
        return;
      }
      return SleepIdle;
    }

    /** The worker, from waking in the timed wait to its next wait, to the end, or to firing. */
    method WakeFromTimedWait(waitingFor: nat, timedOut: bool, now: real) returns (exit: Exit)
      modifies this
      ensures exit == WakeTimed(stopped, old(Current()), waitingFor, timedOut, now)
      ensures stopped == old(stopped)
      ensures Current() == if exit.Fire? then Inactive(old(Current())) else old(Current())
    {
      if stopped || !active || generation != waitingFor {
        exit := EnterLoop();
        return;
      }
      if !timedOut {
        return SleepUntil(waitingFor);
      }
      if now < deadline {
        exit := EnterLoop();
        return;
      }
      exit := Fire(generation, action);
      active := false;
    }
  }
}
