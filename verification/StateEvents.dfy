/** The version counters long polls wait on (src/stateUpdateEvents.cpp:137-143 and 192-214). */
module StateEvents {
  import opened Options

  datatype Kind = ControlPanel | Playlists | Queue | Timer

  const KIND_COUNT := 4

  /** The kind a client names (src/remoteControlCommands/subscribeOnAIMPStateUpdateEventCommand.cpp:16-27);
      None for an unknown event, which is refused. */
  function KindFor(event: string): Option<Kind> {
    if event == "control_panel_state_change" then Some(ControlPanel)
    else if event == "playlists_content_change" then Some(Playlists)
    else if event == "queue_content_change" then Some(Queue)
    else if event == "timer_state_change" then Some(Timer)
    else None
  }

  function Index(kind: Kind): (i: nat)
    ensures i < KIND_COUNT
  {
    match kind
    case ControlPanel => 0
    case Playlists => 1
    case Queue => 2
    case Timer => 3
  }

  /** The counters and the stop flag as one value. */
  datatype Events = Events(versions: seq<nat>, stopped: bool) {
    predicate Valid() { |versions| == KIND_COUNT }

    function Version(kind: Kind): nat
      requires Valid()
    {
      versions[Index(kind)]
    }

    function Notified(kind: Kind): (e: Events)
      requires Valid()
      ensures e.Valid() && e.stopped == stopped
      ensures forall k :: e.Version(k) == Version(k) + if k == kind then 1 else 0
    {
      this.(versions := versions[Index(kind) := Version(kind) + 1])
    }

    /** What a waiting poll finds on waking: None to go on waiting, else the result of the wait. */
    function Outcome(kind: Kind, seen: nat, timedOut: bool): Option<bool>
      requires Valid()
    {
      if stopped then Some(false)
      else if Version(kind) != seen then Some(true)
      else if timedOut then Some(false)
      else None
    }
  }

  class StateUpdateEvents {
    const versions: array<nat>
    var stopped: bool
    var wakeUps: nat                   // how often notify_all was called

    ghost predicate Valid()
      reads this
    {
      versions.Length == KIND_COUNT
    }

    ghost function Current(): Events
      reads this, versions
    {
      Events(versions[..], stopped)
    }

    constructor ()
      ensures Valid() && fresh(versions)
      ensures Current() == Events([0, 0, 0, 0], false) && wakeUps == 0
    {
      versions := new nat[KIND_COUNT](_ => 0);
      stopped := false;
      wakeUps := 0;
    }

    method NotifyAll()
      modifies `wakeUps
      ensures wakeUps == old(wakeUps) + 1
    {
      wakeUps := wakeUps + 1;
    }

    /** The first part of Stop. */
    method MarkStopped()
      requires Valid()
      modifies this
      ensures Current() == old(Current()).(stopped := true) && wakeUps == old(wakeUps) + 1
    {
      stopped := true;
      NotifyAll();
    }

    method Notify(kind: Kind)
      requires Valid()
      modifies versions, `wakeUps
      ensures Current() == old(Current()).Notified(kind) && wakeUps == old(wakeUps) + 1
    {
      versions[Index(kind)] := versions[Index(kind)] + 1;
      NotifyAll();
    }

    method IsStopped() returns (r: bool)
      ensures r == stopped
    {
      r := stopped;
    }

    /** Wait, before it blocks: the version to compare against. */
    method Sample(kind: Kind) returns (seen: nat)
      requires Valid()
      ensures seen == Current().Version(kind)
    {
      seen := versions[Index(kind)];
    }

    /** Wait, on waking: its predicate, then its result. */
    method WakeUp(kind: Kind, seen: nat, timedOut: bool) returns (outcome: Option<bool>)
      requires Valid()
      ensures outcome == Current().Outcome(kind, seen, timedOut)
    {
      var ready := stopped || versions[Index(kind)] != seen;
      if !ready && !timedOut {
        return None;
      }
      outcome := Some(ready && !stopped);
    }
  }
}
