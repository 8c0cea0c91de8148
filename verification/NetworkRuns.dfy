/** All runs of the network watcher with its two subscribers: settings, the operating system, the
    servers' owner and the worker interleaved at their critical sections
    (src/helpers/networkWatcher.cpp, src/remoteControlServer.cpp, src/serviceDiscoveryServer.cpp). */
module NetworkRuns {
  import opened NetworkAddresses
  import opened NetworkWatcher
  import opened Options
  import opened Texts
  import D = Discovery
  import L = Listeners

  /** Where Start and Stop have got to. */
  datatype Owner =
    | Down
    | Launched       // the thread exists, notifications are not registered yet
    | Up
    | Unregistered   // Stop has dropped the notifications
    | Stopping       // Stop waits for the thread

  datatype Worker =
    | NoThread
    | Waiting(retry: bool)
    | Copying
    | Listing(excluded: seq<Text>)
    | Calling(excluded: seq<Text>, listed: seq<NetworkAddress>, called: nat, retry: bool)
    | Ended

  /** What a finished pass has used. */
  datatype PassInput = PassInput(excluded: seq<Text>, listed: seq<NetworkAddress>)

  datatype State = State(
    excluded: seq<Text>,
    refresh: bool,
    stopping: bool,
    setters: nat,                    // SetExcludedInterfaces calls between their two locks
    machine: seq<NetworkAddress>,    // the machine's addresses
    notifying: bool,                 // a change has happened whose notification is still to come
    unannounced: bool,               // a change has happened, since they were last listed, that nobody will announce
    owner: Owner,
    worker: Worker,
    last: Option<PassInput>,         // the last pass of this thread
    discovery: D.Sockets,
    remote: L.Server,
    synced: bool,                    // the remote server has passed since it was last stopped
    asleep: bool,                    // the worker is blocked in its wait
    notices: nat)                    // calls of notify_all under way

  datatype Step =
    | StoreExcluded(ids: seq<Text>)
    | RefreshAfterStore
    | ChangeAddresses(list: seq<NetworkAddress>)
    | Notification
    | Launch
    | Register
    | Unregister
    | MarkStopping
    | Join
    | NotifyAll
    | StartRemote(port: nat)
    | StopRemote
    | Work(timedOut: bool, opens: seq<bool>)

  const INITIAL := State([], false, false, 0, [], false, false, Down, NoThread, None, D.NONE,
                         L.Server(false, 3333, true, [], {}, 0, [], []), false, false, 0)

  /** What binding each allowed address answers; false where the environment says nothing. */
  function Answers(opens: seq<bool>, n: nat): (r: seq<bool>)
    ensures |r| == n
  {
    seq(n, i => 0 <= i < |opens| && opens[i])
  }

  function Do(s: State, step: Step): State {
    match step
    case StoreExcluded(_) => ByEnvironment(s, step)
    case RefreshAfterStore => ByEnvironment(s, step)
    case ChangeAddresses(_) => ByEnvironment(s, step)
    case Notification => ByEnvironment(s, step)
    case StartRemote(port) => s.(remote := s.remote.(running := true, port := port))
    case StopRemote => s.(remote := L.AllClosed(s.remote), synced := false)
    case Work(timedOut, opens) => DoWork(s, timedOut, opens)
    case _ => ByOwner(s, step)
  }

  /** What settings and the operating system do. */
  function ByEnvironment(s: State, step: Step): State {
    match step
    case StoreExcluded(ids) => s.(excluded := ids, setters := s.setters + 1)
    case RefreshAfterStore =>
      if s.setters > 0 then s.(refresh := true, setters := s.setters - 1, notices := s.notices + 1) else s
    case ChangeAddresses(list) => MachineChanged(s, list)
    case Notification =>
      if s.owner.Up? then s.(refresh := true, notifying := false, notices := s.notices + 1) else s
    case _ => s
  }

  /** The operating system notifies only who is registered. */
  function MachineChanged(s: State, list: seq<NetworkAddress>): State {
    if s.owner.Up? then s.(machine := list, notifying := true) else s.(machine := list, unannounced := true)
  }

  /** What Start and Stop do, and the arrival of a notification. */
  function ByOwner(s: State, step: Step): State {
    match step
    case Launch =>
      if s.owner.Down? then
        s.(stopping := false, refresh := true, owner := Launched, worker := Waiting(false), last := None)
      else s
    case Register => if s.owner.Launched? then s.(owner := Up) else s
    case Unregister =>
      if s.owner.Up? then
        s.(owner := Unregistered, notifying := false, unannounced := s.unannounced || s.notifying)
      else s
    case MarkStopping =>
      if s.owner.Unregistered? then s.(owner := Stopping, stopping := true, notices := s.notices + 1) else s
    case Join => if s.owner.Stopping? && s.worker.Ended? then s.(owner := Down, worker := NoThread) else s
    case NotifyAll => if s.notices > 0 then s.(asleep := false, notices := s.notices - 1) else s
    case _ => s
  }

  /** The worker's next section: one lock, one listing, or one handler call. A sleeping worker may
      wake at any moment; its wait then checks the flags. */
  function DoWork(s: State, timedOut: bool, opens: seq<bool>): State {
    match s.worker
    case NoThread => s
    case Ended => s
    case Waiting(retry) =>
      (match OnWake(s.stopping, s.refresh, retry, timedOut)
       case Leave => s.(worker := Ended, asleep := false)
       case Sleep => s.(asleep := true)
       case Pass => s.(refresh := false, worker := Copying, asleep := false))
    case Copying => s.(worker := Listing(s.excluded))
    case Listing(excluded) => s.(worker := Calling(excluded, s.machine, 0, false), unannounced := false)
    case Calling(excluded, listed, called, retry) =>
      if called == 0 then CallDiscovery(s, opens)
      else if called == 1 then CallRemote(s, opens)
      else s.(worker := if s.stopping then Ended else Waiting(retry), last := Some(PassInput(excluded, listed)))
  }

  function CallDiscovery(s: State, opens: seq<bool>): State
    requires s.worker.Calling?
  {
    var allowed := Allowed(s.worker.listed, s.worker.excluded);
    var answers := Answers(opens, |allowed|);
    s.(discovery := D.AfterPass(s.discovery, allowed, answers),
       worker := s.worker.(called := 1, retry := s.worker.retry || !D.PassComplete(s.discovery, allowed, answers)))
  }

  function CallRemote(s: State, opens: seq<bool>): State
    requires s.worker.Calling?
  {
    var allowed := Allowed(s.worker.listed, s.worker.excluded);
    var answers := Answers(opens, |allowed|);
    s.(remote := L.AfterPass(s.remote, allowed, answers), synced := s.remote.running,
       worker := s.worker.(called := 2, retry := s.worker.retry || !L.PassComplete(s.remote, allowed, answers)))
  }

  function Run(s: State, steps: seq<Step>): State
    decreases |steps|
  {
    if steps == [] then s else Run(Do(s, steps[0]), steps[1..])
  }

  // ---------------------------------------------------------------- what every step keeps

  /** A pass that used these exclusions is current, or another pass will be requested. */
  ghost predicate ExcludedCovered(s: State, excluded: seq<Text>) {
    excluded == s.excluded || s.refresh || s.setters > 0
  }

  ghost predicate ListedCovered(s: State, listed: seq<NetworkAddress>) {
    listed == s.machine || s.refresh || s.notifying || s.unannounced
  }

  ghost predicate DiscoveryServes(s: State, allowed: seq<NetworkAddress>) {
    s.discovery.byAddress.Keys == Addresses(allowed)
  }

  ghost predicate RemoteServes(s: State, allowed: seq<NetworkAddress>) {
    s.synced ==> L.Bound(s.remote.listeners) == Addresses(allowed)
  }

  ghost predicate PassServed(s: State, p: PassInput, called: nat, retry: bool) {
    && ExcludedCovered(s, p.excluded)
    && ListedCovered(s, p.listed)
    && (!retry && called >= 1 ==> DiscoveryServes(s, Allowed(p.listed, p.excluded)))
    && (!retry && called >= 2 ==> RemoteServes(s, Allowed(p.listed, p.excluded)))
  }

  ghost predicate Inv(s: State) {
    && (!s.synced ==> s.remote.listeners == [])
    && (!s.remote.running ==> !s.synced)
    && (s.owner.Down? <==> s.worker.NoThread?)
    && (s.notifying ==> s.owner.Up?)
    && (s.asleep ==> s.worker.Waiting?)
    && (s.asleep && (s.stopping || s.refresh) ==> s.notices > 0)
    && (match s.worker
        case Waiting(retry) => if s.last.None? then s.refresh else PassServed(s, s.last.value, 2, retry)
        case Listing(excluded) => ExcludedCovered(s, excluded)
        case Calling(excluded, listed, called, retry) => PassServed(s, PassInput(excluded, listed), called, retry)
        case _ => true)
  }

  lemma CallDiscoveryKept(s: State, opens: seq<bool>)
    requires Inv(s) && s.worker.Calling? && s.worker.called == 0
    ensures Inv(CallDiscovery(s, opens))
  {
    var allowed := Allowed(s.worker.listed, s.worker.excluded);
    var answers := Answers(opens, |allowed|);
    D.PassAgrees(s.discovery, allowed, answers);
    hide D.AfterPass, D.PassComplete, Allowed, Answers, Addresses, L.Bound;
  }

  lemma RemotePassKeepsRunning(r: L.Server, allowed: seq<NetworkAddress>, answers: seq<bool>)
    requires |answers| == |allowed| && r.running
    ensures L.AfterPass(r, allowed, answers).running
  {
    hide L.AfterPass, L.Wanted, L.Unwanted, L.Bound, Addresses;
    L.PassEdits(r, allowed, answers);
  }

  lemma CallRemoteKept(s: State, opens: seq<bool>)
    requires Inv(s) && s.worker.Calling? && s.worker.called == 1
    ensures Inv(CallRemote(s, opens))
  {
    var allowed := Allowed(s.worker.listed, s.worker.excluded);
    var answers := Answers(opens, |allowed|);
    if s.remote.running {
      RemotePassKeepsRunning(s.remote, allowed, answers);
      L.PassAgrees(s.remote, allowed, answers);
    } else {
      assert CallRemote(s, opens).remote == s.remote && L.PassComplete(s.remote, allowed, answers);
    }
    hide L.AfterPass, L.PassComplete, Allowed, Answers, Addresses, L.Bound;
  }

  lemma WakeKept(s: State, timedOut: bool, opens: seq<bool>)
    requires Inv(s) && s.worker.Waiting?
    ensures Inv(DoWork(s, timedOut, opens))
  {
    hide CallDiscovery, CallRemote, Allowed, Addresses, L.Bound;
  }

  lemma FinishKept(s: State, timedOut: bool, opens: seq<bool>)
    requires Inv(s) && s.worker.Calling? && s.worker.called >= 2
    ensures Inv(DoWork(s, timedOut, opens))
  {
    hide CallDiscovery, CallRemote, Allowed, Addresses, L.Bound, OnWake;
  }

  lemma CopyKept(s: State, timedOut: bool, opens: seq<bool>)
    requires Inv(s) && !s.worker.Waiting? && !s.worker.Calling?
    ensures Inv(DoWork(s, timedOut, opens))
  {
    hide CallDiscovery, CallRemote, Allowed, Addresses, L.Bound, OnWake;
  }

  lemma WorkKept(s: State, timedOut: bool, opens: seq<bool>)
    requires Inv(s)
    ensures Inv(DoWork(s, timedOut, opens))
  {
    if s.worker.Calling? && s.worker.called == 0 {
      CallDiscoveryKept(s, opens);
    } else if s.worker.Calling? && s.worker.called == 1 {
      CallRemoteKept(s, opens);
    } else if s.worker.Calling? {
      FinishKept(s, timedOut, opens);
    } else if s.worker.Waiting? {
      WakeKept(s, timedOut, opens);
    } else {
      CopyKept(s, timedOut, opens);
    }
    hide Inv, CallDiscovery, CallRemote, OnWake;
  }

  /** What a pass served stays served as long as nobody touches the servers, and a change of its inputs
      requests another pass. */
  ghost predicate Covers(s: State, s': State) {
    && s'.discovery == s.discovery && s'.remote == s.remote && s'.synced == s.synced
    && (s'.excluded == s.excluded || s'.refresh || s'.setters > 0)
    && (s.refresh || s.setters > 0 ==> s'.refresh || s'.setters > 0)
    && (s'.machine == s.machine || s'.refresh || s'.notifying || s'.unannounced)
    && (s.refresh || s.notifying || s.unannounced ==> s'.refresh || s'.notifying || s'.unannounced)
  }

  lemma CoversKeeps(s: State, s': State, p: PassInput, called: nat, retry: bool)
    requires Covers(s, s')
    ensures ExcludedCovered(s, p.excluded) ==> ExcludedCovered(s', p.excluded)
    ensures PassServed(s, p, called, retry) ==> PassServed(s', p, called, retry)
  {
    hide Allowed, Addresses, L.Bound;
  }

  /** The threads stay where they are, and who requests a refresh notifies. */
  ghost predicate LeavesThreads(s: State, s': State) {
    && s'.owner == s.owner && s'.worker == s.worker && s'.last == s.last
    && s'.asleep == s.asleep && s'.stopping == s.stopping
    && s.notices <= s'.notices && (s'.refresh && !s.refresh ==> s'.notices > 0)
    && (s.refresh ==> s'.refresh)
    && (s'.notifying ==> s.notifying || s.owner.Up?)
  }

  lemma ChangeCovers(s: State, list: seq<NetworkAddress>)
    ensures var s' := Do(s, ChangeAddresses(list)); Covers(s, s') && LeavesThreads(s, s')
  {
    hide DoWork, ByOwner;
  }

  lemma StoreCovers(s: State, ids: seq<Text>)
    ensures var s' := Do(s, StoreExcluded(ids)); Covers(s, s') && LeavesThreads(s, s')
  {
    hide DoWork, ByOwner, MachineChanged;
  }

  lemma RefreshCovers(s: State)
    ensures var s' := Do(s, RefreshAfterStore); Covers(s, s') && LeavesThreads(s, s')
  {
    hide DoWork, ByOwner, MachineChanged;
  }

  lemma NotificationCovers(s: State)
    ensures var s' := Do(s, Notification); Covers(s, s') && LeavesThreads(s, s')
  {
    hide DoWork, ByOwner, MachineChanged;
  }

  lemma EnvironmentCovers(s: State, step: Step)
    requires step.StoreExcluded? || step.RefreshAfterStore? || step.ChangeAddresses? || step.Notification?
    ensures var s' := Do(s, step); Covers(s, s') && LeavesThreads(s, s')
  {
    hide Do, Covers, LeavesThreads;
    if step.ChangeAddresses? {
      ChangeCovers(s, step.list);
    } else if step.StoreExcluded? {
      StoreCovers(s, step.ids);
    } else if step.Notification? {
      NotificationCovers(s);
    } else {
      RefreshCovers(s);
    }
  }

  lemma CoversKept(s: State, s': State)
    requires Inv(s) && Covers(s, s') && LeavesThreads(s, s')
    ensures Inv(s')
  {
    hide PassServed, ExcludedCovered, ListedCovered;
    match s.worker {
      case Waiting(retry) =>
        if s.last.Some? {
          CoversKeeps(s, s', s.last.value, 2, retry);
        }
      case Listing(excluded) => CoversKeeps(s, s', PassInput(excluded, []), 0, false);
      case Calling(excluded, listed, called, retry) => CoversKeeps(s, s', PassInput(excluded, listed), called, retry);
      case _ =>
    }
  }

  lemma EnvironmentKept(s: State, step: Step)
    requires Inv(s)
    requires step.StoreExcluded? || step.RefreshAfterStore? || step.ChangeAddresses? || step.Notification?
    ensures Inv(Do(s, step))
  {
    hide Inv, Do, Covers, LeavesThreads;
    EnvironmentCovers(s, step);
    CoversKept(s, Do(s, step));
  }

  lemma OwnerKept(s: State, step: Step)
    requires Inv(s)
    requires step.Launch? || step.Register? || step.Unregister? || step.MarkStopping? || step.Join? || step.NotifyAll?
    ensures Inv(Do(s, step))
  {
    hide DoWork, ByEnvironment, Allowed, Addresses, L.Bound;
  }

  lemma RemoteKept(s: State, step: Step)
    requires Inv(s)
    requires step.StartRemote? || step.StopRemote?
    ensures Inv(Do(s, step))
  {
    hide DoWork, ByOwner, ByEnvironment, Allowed, Addresses, L.Bound;
  }

  lemma StepKept(s: State, step: Step)
    requires Inv(s)
    ensures Inv(Do(s, step))
  {
    if step.Work? {
      WorkKept(s, step.timedOut, step.opens);
      hide Inv, DoWork, ByOwner, ByEnvironment;
    } else {
      hide Inv, Do;
      if step.StartRemote? || step.StopRemote? {
        RemoteKept(s, step);
      } else if step.StoreExcluded? || step.RefreshAfterStore? || step.ChangeAddresses? || step.Notification? {
        EnvironmentKept(s, step);
      } else {
        OwnerKept(s, step);
      }
    }
  }

  lemma {:induction false} RunKept(s: State, steps: seq<Step>)
    requires Inv(s)
    ensures Inv(Run(s, steps))
    decreases |steps|
  {
    if steps != [] {
      StepKept(s, steps[0]);
      RunKept(Do(s, steps[0]), steps[1..]);
    }
  }

  // ---------------------------------------------------------------- quiescence

  /** The worker is blocked in its untimed wait, no notification is under way, and nobody is about to
      request a refresh. */
  ghost predicate Quiescent(s: State) {
    s.worker == Waiting(false) && s.asleep && s.notices == 0 && s.setters == 0 && !s.notifying
  }

  /** In every run, if the worker is blocked although a refresh or the end has been requested, a
      notification that will wake it is under way. */
  lemma NoLostWakeUp(steps: seq<Step>)
    requires Run(INITIAL, steps).asleep
    ensures var s := Run(INITIAL, steps); s.worker.Waiting? && (s.stopping || s.refresh ==> s.notices > 0)
  {
    RunKept(INITIAL, steps);
  }

  /** In every run, a quiescent watcher has served the current exclusions and, unless addresses
      changed while no notification was registered, the current addresses: the discovery server listens
      on exactly the allowed addresses, and so does the running remote server, exactly if it has not
      been restarted since that pass or no address is allowed. */
  lemma QuiescenceMeansAgreement(steps: seq<Step>)
    requires Quiescent(Run(INITIAL, steps))
    ensures var s := Run(INITIAL, steps);
      && s.last.Some? && s.last.value.excluded == s.excluded
      && (!s.unannounced ==> s.last.value.listed == s.machine)
    ensures var s := Run(INITIAL, steps);
      var allowed := Allowed(s.last.value.listed, s.excluded);
      && s.discovery.byAddress.Keys == Addresses(allowed)
      && (s.remote.running ==>
            (L.Bound(s.remote.listeners) == Addresses(allowed) <==> s.synced || Addresses(allowed) == {}))
  {
    RunKept(INITIAL, steps);
  }

  /** The addresses agree, but a socket that was open when its address moved to another interface is still on
      the old one, even if that is the interface excluded. */
  lemma ServedThoughExcluded(a: NetworkAddress, former: Text, serial: nat)
    requires a.interfaceId != former
    ensures var sockets := D.Sockets(map[a.address := D.Socket(serial, former)], serial + 1, {});
      && Allowed([a], [former]) == [a]
      && D.PassComplete(sockets, [a], [true])
      && D.AfterPass(sockets, [a], [true]).byAddress == map[a.address := D.Socket(serial, former)]
  {
    var sockets := D.Sockets(map[a.address := D.Socket(serial, former)], serial + 1, {});
    assert [a][1..] == [];
    hide D.AfterPass, D.PassComplete;
    D.PassEdits(sockets, [a], [true]);
    D.AllOpenComplete(sockets, [a], [true]);
    assert a in [a];
    assert Addresses([a]) == {a.address};
  }

  /** The exclusions last set, and the addresses the machine last got. */
  function LatestExcluded(steps: seq<Step>): seq<Text>
    decreases |steps|
  {
    if steps == [] then []
    else
      var last := steps[|steps| - 1];
      if last.StoreExcluded? then last.ids else LatestExcluded(steps[..|steps| - 1])
  }

  function LatestList(steps: seq<Step>): seq<NetworkAddress>
    decreases |steps|
  {
    if steps == [] then []
    else
      var last := steps[|steps| - 1];
      if last.ChangeAddresses? then last.list else LatestList(steps[..|steps| - 1])
  }

  ghost predicate SameInputs(s: State, s': State) {
    s'.excluded == s.excluded && s'.machine == s.machine
  }

  lemma CallsKeepInputs(s: State, opens: seq<bool>)
    requires s.worker.Calling?
    ensures SameInputs(s, CallDiscovery(s, opens)) && SameInputs(s, CallRemote(s, opens))
  {
    hide D.AfterPass, D.PassComplete, L.AfterPass, L.PassComplete, Allowed, Answers;
  }

  lemma WakesKeepInputs(s: State, timedOut: bool, opens: seq<bool>)
    requires s.worker.Waiting?
    ensures SameInputs(s, DoWork(s, timedOut, opens))
  {
    hide CallDiscovery, CallRemote;
  }

  lemma CopyKeepsInputs(s: State, timedOut: bool, opens: seq<bool>)
    requires s.worker.Copying? || s.worker.Listing?
    ensures SameInputs(s, DoWork(s, timedOut, opens))
  {
    hide CallDiscovery, CallRemote, OnWake;
  }

  lemma RestKeepsInputs(s: State, timedOut: bool, opens: seq<bool>)
    requires s.worker.NoThread? || s.worker.Ended? || (s.worker.Calling? && s.worker.called > 1)
    ensures SameInputs(s, DoWork(s, timedOut, opens))
  {
    hide CallDiscovery, CallRemote, OnWake;
  }

  lemma WorkKeepsInputs(s: State, timedOut: bool, opens: seq<bool>)
    ensures SameInputs(s, DoWork(s, timedOut, opens))
  {
    hide SameInputs;
    if s.worker.Calling? && s.worker.called <= 1 {
      CallsKeepInputs(s, opens);
      hide CallDiscovery, CallRemote, OnWake;
    } else {
      hide DoWork;
      if s.worker.Waiting? {
        WakesKeepInputs(s, timedOut, opens);
      } else if s.worker.Copying? || s.worker.Listing? {
        CopyKeepsInputs(s, timedOut, opens);
      } else {
        RestKeepsInputs(s, timedOut, opens);
      }
    }
  }

  lemma OwnerKeepsInputs(s: State, step: Step)
    ensures SameInputs(s, ByOwner(s, step))
  {}

  lemma EnvironmentExclusions(s: State, step: Step)
    ensures ByEnvironment(s, step).excluded == if step.StoreExcluded? then step.ids else s.excluded
  {}

  lemma EnvironmentList(s: State, step: Step)
    ensures ByEnvironment(s, step).machine == if step.ChangeAddresses? then step.list else s.machine
  {}

  lemma StepInputs(s: State, step: Step)
    ensures Do(s, step).excluded == if step.StoreExcluded? then step.ids else s.excluded
    ensures Do(s, step).machine == if step.ChangeAddresses? then step.list else s.machine
  {
    if step.Work? {
      WorkKeepsInputs(s, step.timedOut, step.opens);
    }
    EnvironmentExclusions(s, step);
    EnvironmentList(s, step);
    OwnerKeepsInputs(s, step);
    hide DoWork, ByOwner, ByEnvironment, L.AllClosed;
  }

  lemma {:induction false} InputsAreLatest(steps: seq<Step>)
    ensures Run(INITIAL, steps).excluded == LatestExcluded(steps)
    ensures Run(INITIAL, steps).machine == LatestList(steps)
    decreases |steps|
  {
    if steps != [] {
      var front, last := steps[..|steps| - 1], steps[|steps| - 1];
      assert steps == front + [last];
      InputsAreLatest(front);
      StepInputs(Run(INITIAL, front), last);
      hide Do;
      RunConcat(INITIAL, front, [last]);
      RunOne(Run(INITIAL, front), last);
    }
  }

  /** So in every run a quiescent watcher that was not bypassed has the discovery server, and the remote server if
      it runs and was not restarted since, listening on exactly those of the machine's latest addresses whose
      interface is not among the exclusions last set. */
  lemma LatestInputsServed(steps: seq<Step>, address: Text)
    requires Quiescent(Run(INITIAL, steps)) && !Run(INITIAL, steps).unannounced
    ensures var s := Run(INITIAL, steps);
      var served :=
        exists a :: a in LatestList(steps) && a.address == address && a.interfaceId !in LatestExcluded(steps);
      && (address in s.discovery.byAddress <==> served)
      && (s.remote.running && s.synced ==> (address in L.Bound(s.remote.listeners) <==> served))
  {
    QuiescenceMeansAgreement(steps);
    InputsAreLatest(steps);
    AllowedExactly(LatestList(steps), LatestExcluded(steps));
    hide Run, Allowed, L.Bound;
  }

  // ---------------------------------------------------------------- when passes begin

  /** A waiting worker that wakes: it ends exactly if it is to stop; a requested pass begins at once, and a retry
      only when its time-out has come; otherwise it goes on sleeping, and nothing else changes. */
  lemma WakesExactly(s: State, timedOut: bool, opens: seq<bool>)
    requires s.worker.Waiting?
    ensures Do(s, Work(timedOut, opens)) ==
      if s.stopping then s.(worker := Ended, asleep := false)
      else if s.refresh || (s.worker.retry && timedOut) then s.(refresh := false, worker := Copying, asleep := false)
      else s.(asleep := true)
  {
    hide CallDiscovery, CallRemote, ByOwner, ByEnvironment;
  }

  lemma OthersBeginNoPass(s: State, step: Step)
    requires !step.Work? && !s.worker.Copying?
    ensures !Do(s, step).worker.Copying?
  {
    hide Do;
    if step.StoreExcluded? || step.RefreshAfterStore? || step.ChangeAddresses? || step.Notification? {
      EnvironmentCovers(s, step);
    } else {
      OwnersBeginNoPass(s, step);
    }
  }

  lemma OwnersBeginNoPass(s: State, step: Step)
    requires !step.Work? && !s.worker.Copying?
    requires !(step.StoreExcluded? || step.RefreshAfterStore? || step.ChangeAddresses? || step.Notification?)
    ensures !Do(s, step).worker.Copying?
  {
    if step.StartRemote? || step.StopRemote? {
      hide DoWork, ByEnvironment, ByOwner;
    } else {
      assert Do(s, step) == ByOwner(s, step);
      hide Do;
    }
  }

  lemma OtherSectionsBeginNoPass(s: State, timedOut: bool, opens: seq<bool>)
    requires !s.worker.Waiting? && !s.worker.Copying?
    ensures !DoWork(s, timedOut, opens).worker.Copying?
  {
    if s.worker.Calling? {
      DiscoveryCalled(s, opens);
      RemoteCalled(s, opens);
    }
    hide CallDiscovery, CallRemote, OnWake;
  }

  /** In every run, whatever the step: a pass begins only on a request, or after a retry's time-out. */
  lemma PassBeginsExactly(s: State, step: Step)
    requires !s.worker.Copying?
    ensures Do(s, step).worker.Copying? <==>
      && step.Work? && s.worker.Waiting? && !s.stopping
      && (s.refresh || (s.worker.retry && step.timedOut))
  {
    if !step.Work? {
      OthersBeginNoPass(s, step);
      hide Do;
    } else if s.worker.Waiting? {
      hide Do;
      WakesExactly(s, step.timedOut, step.opens);
    } else {
      OtherSectionsBeginNoPass(s, step.timedOut, step.opens);
      hide DoWork, ByOwner, ByEnvironment;
    }
  }

  lemma DiscoveryCalled(s: State, opens: seq<bool>)
    requires s.worker.Calling?
    ensures var s' := CallDiscovery(s, opens);
      s'.worker.Calling? && s'.worker.called == 1 && s'.stopping == s.stopping && s'.owner == s.owner
  {
    hide D.AfterPass, D.PassComplete, Allowed, Answers;
  }

  lemma RemoteCalled(s: State, opens: seq<bool>)
    requires s.worker.Calling?
    ensures var s' := CallRemote(s, opens);
      s'.worker.Calling? && s'.worker.called == 2 && s'.stopping == s.stopping && s'.owner == s.owner
  {
    hide L.AfterPass, L.PassComplete, Allowed, Answers;
  }

  /** A pass ends by asking for a retry exactly if one of the servers did not complete it, with the addresses
      listed and the exclusions copied at its start. */
  lemma PassEnds(s: State, a: seq<bool>, b: seq<bool>, excluded: seq<Text>, listed: seq<NetworkAddress>)
    requires s.worker == Calling(excluded, listed, 0, false)
    ensures var allowed := Allowed(listed, excluded);
      var answersA, answersB := Answers(a, |allowed|), Answers(b, |allowed|);
      var complete := D.PassComplete(s.discovery, allowed, answersA) && L.PassComplete(s.remote, allowed, answersB);
      DoWork(DoWork(DoWork(s, false, a), false, b), false, []) ==
        s.(discovery := D.AfterPass(s.discovery, allowed, answersA), remote := L.AfterPass(s.remote, allowed, answersB),
           synced := s.remote.running, last := Some(PassInput(excluded, listed)),
           worker := if s.stopping then Ended else Waiting(!complete))
  {
    hide D.PassComplete, D.AfterPass, L.PassComplete, L.AfterPass, Allowed, Answers, OnWake;
    var s1 := CallDiscovery(s, a);
    assert DoWork(s, false, a) == s1;
    var s2 := CallRemote(s1, b);
    assert DoWork(s1, false, b) == s2;
    hide CallDiscovery, CallRemote;
  }

  /** The worker left to itself for some sections, in which every binding succeeds. */
  function WorkAlone(s: State, opens: seq<bool>, n: nat): State
    decreases n
  {
    if n == 0 then s else WorkAlone(DoWork(s, true, opens), opens, n - 1)
  }

  lemma DiscoveryRepairs(s: State, opens: seq<bool>)
    requires s.worker == Calling(s.excluded, s.machine, 0, false)
    requires |opens| >= |Allowed(s.machine, s.excluded)| && forall i :: 0 <= i < |opens| ==> opens[i]
    ensures var t := CallDiscovery(s, opens);
      && t.worker == s.worker.(called := 1)
      && t == s.(worker := t.worker, discovery := t.discovery)
      && t.discovery.byAddress.Keys == Addresses(Allowed(s.machine, s.excluded))
  {
    hide D.AfterPass, D.PassComplete, Allowed, Addresses;
    var allowed := Allowed(s.machine, s.excluded);
    var answers := Answers(opens, |allowed|);
    D.AllOpenComplete(s.discovery, allowed, answers);
    D.PassAgrees(s.discovery, allowed, answers);
  }

  lemma RemoteRepairs(s: State, opens: seq<bool>)
    requires s.worker == Calling(s.excluded, s.machine, 1, false)
    requires |opens| >= |Allowed(s.machine, s.excluded)| && forall i :: 0 <= i < |opens| ==> opens[i]
    ensures var t := CallRemote(s, opens);
      && t.worker == s.worker.(called := 2)
      && t == s.(worker := t.worker, remote := t.remote, synced := t.synced)
      && (s.remote.running ==> L.Bound(t.remote.listeners) == Addresses(Allowed(s.machine, s.excluded)))
  {
    hide L.AfterPass, L.PassComplete, Allowed, Addresses, L.Bound;
    var allowed := Allowed(s.machine, s.excluded);
    var answers := Answers(opens, |allowed|);
    L.AllOpenComplete(s.remote, allowed, answers);
    if s.remote.running {
      L.PassAgrees(s.remote, allowed, answers);
    }
  }

  lemma SixSections(s: State, opens: seq<bool>)
    ensures WorkAlone(s, opens, 6) ==
      WorkAlone(DoWork(DoWork(DoWork(s, true, opens), true, opens), true, opens), opens, 3)
    ensures WorkAlone(s, opens, 3) ==
      DoWork(DoWork(DoWork(s, true, opens), true, opens), true, opens)
  {
    hide DoWork;
    var t := DoWork(DoWork(s, true, opens), true, opens);
    assert WorkAlone(s, opens, 6) == WorkAlone(DoWork(s, true, opens), opens, 5) == WorkAlone(t, opens, 4);
    assert WorkAlone(s, opens, 3) == WorkAlone(DoWork(s, true, opens), opens, 2) == WorkAlone(t, opens, 1)
        == WorkAlone(DoWork(t, true, opens), opens, 0);
  }

  lemma SectionsBeforeCalls(s: State, opens: seq<bool>)
    requires s.worker.Waiting? && !s.stopping && (s.refresh || s.worker.retry)
    ensures DoWork(DoWork(DoWork(s, true, opens), true, opens), true, opens) ==
      s.(refresh := false, unannounced := false, asleep := false, worker := Calling(s.excluded, s.machine, 0, false))
  {
    hide CallDiscovery, CallRemote;
  }

  /** A requested or retried pass that is left alone and whose bindings succeed ends in quiescence,
      so nothing stays broken once the environment allows repair. */
  lemma UndisturbedPassRepairs(s: State, opens: seq<bool>)
    requires s.worker.Waiting? && !s.stopping && (s.refresh || s.worker.retry)
    requires |opens| >= |Allowed(s.machine, s.excluded)| && (forall i :: 0 <= i < |opens| ==> opens[i])
    ensures var s' := WorkAlone(s, opens, 6);
      && s'.worker == Waiting(false) && !s'.refresh
      && s'.last == Some(PassInput(s.excluded, s.machine)) && s'.excluded == s.excluded && s'.machine == s.machine
      && s'.discovery.byAddress.Keys == Addresses(Allowed(s.machine, s.excluded))
      && (s.remote.running ==> L.Bound(s'.remote.listeners) == Addresses(Allowed(s.machine, s.excluded)))
  {
    var s3 := s.(refresh := false, unannounced := false, asleep := false,
                 worker := Calling(s.excluded, s.machine, 0, false));
    SectionsBeforeCalls(s, opens);
    SixSections(s, opens);
    SixSections(s3, opens);
    DiscoveryRepairs(s3, opens);
    var s4 := CallDiscovery(s3, opens);
    RemoteRepairs(s4, opens);
    var s5 := CallRemote(s4, opens);
    hide CallDiscovery, CallRemote, WorkAlone, Allowed, Addresses, L.Bound;
    assert DoWork(s3, true, opens) == s4;
    assert DoWork(s4, true, opens) == s5;
  }

  lemma WorkAloneStep(s: State, opens: seq<bool>, n: nat)
    ensures WorkAlone(s, opens, n + 1) == WorkAlone(DoWork(s, true, opens), opens, n)
  {
    hide DoWork;
  }

  function SectionsLeft(w: Worker): nat {
    match w
    case NoThread => 0
    case Ended => 0
    case Waiting(_) => 1
    case Calling(_, _, called, _) => if called == 0 then 3 else if called == 1 then 2 else 1
    case Listing(_) => 4
    case Copying => 5
  }

  /** One section nearer the end. */
  ghost predicate Nearer(s: State, s': State) {
    && s'.stopping && !s'.worker.NoThread? && s'.owner == s.owner
    && SectionsLeft(s'.worker) == SectionsLeft(s.worker) - 1
  }

  lemma StoppingCall(s: State, opens: seq<bool>)
    requires s.stopping && s.worker.Calling?
    ensures Nearer(s, DoWork(s, true, opens))
  {
    hide CallDiscovery, CallRemote, OnWake;
    if s.worker.called == 0 {
      DiscoveryCalled(s, opens);
    } else if s.worker.called == 1 {
      RemoteCalled(s, opens);
    }
  }

  lemma StoppingWait(s: State, opens: seq<bool>)
    requires s.stopping && s.worker.Waiting?
    ensures Nearer(s, DoWork(s, true, opens))
  {
    WakesExactly(s, true, opens);
    assert DoWork(s, true, opens) == Do(s, Work(true, opens));
    hide DoWork, Do;
  }

  lemma StoppingCopy(s: State, opens: seq<bool>)
    requires s.stopping && s.worker.Copying?
    ensures Nearer(s, DoWork(s, true, opens))
  {
    hide CallDiscovery, CallRemote, OnWake;
  }

  lemma StoppingListing(s: State, opens: seq<bool>)
    requires s.stopping && s.worker.Listing?
    ensures Nearer(s, DoWork(s, true, opens))
  {
    hide CallDiscovery, CallRemote, OnWake;
  }

  lemma StoppingSection(s: State, opens: seq<bool>)
    requires s.stopping && !s.worker.NoThread? && !s.worker.Ended?
    ensures Nearer(s, DoWork(s, true, opens))
  {
    hide DoWork, Nearer;
    match s.worker
    case Waiting(_) => StoppingWait(s, opens);
    case Copying => StoppingCopy(s, opens);
    case Listing(_) => StoppingListing(s, opens);
    case Calling(_, _, _, _) => StoppingCall(s, opens);
  }

  /** A worker that is to stop ends within five sections, begins no other pass, and can then be joined. */
  lemma {:induction false} StoppingWorkerEnds(s: State, opens: seq<bool>)
    requires s.stopping && s.owner.Stopping? && !s.worker.NoThread?
    ensures SectionsLeft(s.worker) <= 5
    ensures var s' := WorkAlone(s, opens, SectionsLeft(s.worker));
      s'.worker.Ended? && Do(s', Join).owner.Down? && Do(s', Join).worker.NoThread?
    decreases SectionsLeft(s.worker)
  {
    if !s.worker.Ended? {
      var s' := DoWork(s, true, opens);
      StoppingSection(s, opens);
      WorkAloneStep(s, opens, SectionsLeft(s'.worker));
      hide DoWork, SectionsLeft;
      StoppingWorkerEnds(s', opens);
    }
  }

  /** So Stop ends the thread, whatever it is doing, and a start after it is not taken for another stop: it first
      requests a pass. */
  lemma StopThenStart(s: State, opens: seq<bool>)
    requires s.owner.Up? && !s.worker.NoThread?
    ensures var stopping := Do(Do(s, Unregister), MarkStopping);
      var stopped := Do(WorkAlone(stopping, opens, SectionsLeft(stopping.worker)), Join);
      var started := Do(stopped, Launch);
      && stopped.owner.Down? && stopped.worker.NoThread?
      && started.worker == Waiting(false) && !started.stopping && started.refresh
      && Do(started, Register).owner.Up?
  {
    var stopping := Do(Do(s, Unregister), MarkStopping);
    assert stopping.stopping && stopping.owner.Stopping? && stopping.worker == s.worker;
    StoppingWorkerEnds(stopping, opens);
    hide DoWork, WorkAlone, SectionsLeft;
  }

  lemma {:induction false} RunConcat(s: State, a: seq<Step>, b: seq<Step>)
    ensures Run(s, a + b) == Run(Run(s, a), b)
    decreases |a|
  {
    hide Do;
    if a == [] {
      assert a + b == b;
    } else {
      assert (a + b)[1..] == a[1..] + b;
      RunConcat(Do(s, a[0]), a[1..], b);
    }
  }

  lemma RunOne(s: State, a: Step)
    ensures Run(s, [a]) == Do(s, a)
  {
    hide Do;
    assert [a][1..] == [];
  }

  lemma RunThree(s: State, a: Step, b: Step, c: Step)
    ensures Run(s, [a, b, c]) == Do(Do(Do(s, a), b), c)
  {
    hide Do;
    assert [a, b, c][1..] == [b, c] && [b, c][1..] == [c] && [c][1..] == [];
    assert Run(s, [a, b, c]) == Run(Do(s, a), [b, c]) == Run(Do(Do(s, a), b), [c]) == Run(Do(Do(Do(s, a), b), c), []);
  }

  const AFTER_EMPTY_PASS := INITIAL.(owner := Launched, worker := Calling([], [], 2, false))

  const BEFORE_EMPTY_PASS := INITIAL.(owner := Launched, worker := Listing([]))

  lemma EmptyPassStarts()
    ensures var w := Work(false, []); Do(Do(Do(INITIAL, Launch), w), w) == BEFORE_EMPTY_PASS
  {
    hide CallDiscovery, CallRemote;
  }

  /** A first pass that finds no address. */
  lemma EmptyPassEnds()
    ensures var w := Work(false, []); Do(Do(Do(BEFORE_EMPTY_PASS, w), w), w) == AFTER_EMPTY_PASS
  {
    assert Allowed([], []) == [] && Addresses([]) == {};
    EmptyPassCalls();
    hide D.AfterPass, D.PassComplete, L.AfterPass, L.PassComplete, Allowed, Addresses;
  }

  lemma EmptyPassCalls()
    ensures D.AfterPass(D.NONE, [], []) == D.NONE && D.PassComplete(D.NONE, [], [])
    ensures L.AfterPass(INITIAL.remote, [], []) == INITIAL.remote && L.PassComplete(INITIAL.remote, [], [])
  {
    assert D.Pruned(D.NONE, {}) == D.NONE;
    assert Addresses([]) == {};
  }

  ghost predicate Missed(s: State, a: NetworkAddress) {
    && Quiescent(s) && s.owner.Up? && s.unannounced
    && Allowed(s.machine, s.excluded) == [a]
    && s.discovery.byAddress.Keys == {} != Addresses(Allowed(s.machine, s.excluded))
  }

  lemma ChangeThenRegister(a: NetworkAddress)
    ensures var w := Work(false, []);
      Missed(Do(Do(Do(Do(AFTER_EMPTY_PASS, w), w), ChangeAddresses([a])), Register), a)
  {
    assert Allowed([a], []) == [a] by { assert [a][1..] == []; }
    assert a in [a] && a.address in Addresses([a]);
  }

  /** An address that appears between the start of the thread and the registration for notifications
      can be missed for good: a quiescent watcher, and an allowed address nobody listens on. */
  lemma ChangeBeforeRegistrationIsMissed(a: NetworkAddress)
    ensures exists steps :: Missed(Run(INITIAL, steps), a)
  {
    var w := Work(false, []);
    var first, second, third, fourth := [Launch, w, w], [w, w, w], [w, w, ChangeAddresses([a])], [Register];
    EmptyPassStarts();
    EmptyPassEnds();
    ChangeThenRegister(a);
    hide Do, Missed;
    RunConcat(INITIAL, first + second + third, fourth);
    RunConcat(INITIAL, first + second, third);
    RunConcat(INITIAL, first, second);
    RunThree(INITIAL, Launch, w, w);
    RunThree(BEFORE_EMPTY_PASS, w, w, w);
    RunThree(AFTER_EMPTY_PASS, w, w, ChangeAddresses([a]));
    RunOne(Do(Do(Do(AFTER_EMPTY_PASS, w), w), ChangeAddresses([a])), Register);
    assert Missed(Run(INITIAL, first + second + third + fourth), a);
  }
}
