/** The network watcher (src/helpers/networkWatcher.cpp:118-205): its fields and critical sections. */
module NetworkWatcher {
  import opened NetworkAddresses
  import opened Texts

  /** The addresses whose interface is not excluded, in order. */
  function Allowed(list: seq<NetworkAddress>, excluded: seq<Text>): seq<NetworkAddress> {
    if list == [] then []
    else (if list[0].interfaceId in excluded then [] else [list[0]]) + Allowed(list[1..], excluded)
  }

  lemma {:induction false} AllowedAppend(list: seq<NetworkAddress>, a: NetworkAddress, excluded: seq<Text>)
    ensures Allowed(list + [a], excluded) == Allowed(list, excluded) + if a.interfaceId in excluded then [] else [a]
  {
    if list == [] {
      assert list + [a] == [a] && [a][1..] == [];
    } else {
      var all := list + [a];
      assert all[0] == list[0] && all[1..] == list[1..] + [a];
      assert Allowed(all, excluded) ==
        (if list[0].interfaceId in excluded then [] else [list[0]]) + Allowed(list[1..] + [a], excluded);
      AllowedAppend(list[1..], a, excluded);
    }
  }

  lemma {:induction false} AllowedExactly(list: seq<NetworkAddress>, excluded: seq<Text>)
    ensures forall a :: a in Allowed(list, excluded) <==> a in list && a.interfaceId !in excluded
    ensures (forall a :: a in list ==> a.interfaceId !in excluded) ==> Allowed(list, excluded) == list
  {
    if list != [] {
      AllowedExactly(list[1..], excluded);
      assert list == [list[0]] + list[1..];
    }
  }

  lemma {:induction false} AllowedKeepsDistinct(list: seq<NetworkAddress>, excluded: seq<Text>)
    requires DistinctAddresses(list)
    ensures DistinctAddresses(Allowed(list, excluded))
  {
    if list != [] {
      DistinctTail(list);
      AllowedKeepsDistinct(list[1..], excluded);
      AllowedExactly(list[1..], excluded);
    }
  }

  /** What the worker does on waking in its wait. */
  datatype Wake = Leave | Sleep | Pass

  /** The wait's predicate, with the time-out of a retry. */
  function OnWake(stopping: bool, refresh: bool, retry: bool, timedOut: bool): Wake {
    if stopping then Leave else if refresh || (retry && timedOut) then Pass else Sleep
  }

  class NetworkWatcher {
    var excludedIds: seq<Text>
    var refreshRequested: bool
    var stopping: bool
    var joinable: bool                 // there is a thread
    var registered: bool               // the operating system's notifications are asked for
    var wakeUps: nat                   // how often notify_all was called

    constructor ()
      ensures excludedIds == [] && !refreshRequested && !stopping && !joinable && !registered && wakeUps == 0
    {
      excludedIds, refreshRequested, stopping := [], false, false;
      joinable, registered, wakeUps := false, false, 0;
    }

    /** The first locked part of SetExcludedInterfaces; the second is Refresh. */
    method StoreExcluded(interfaceIds: seq<Text>)
      modifies `excludedIds
      ensures excludedIds == interfaceIds
    {
      excludedIds := interfaceIds;
    }

    method Refresh()
      modifies `refreshRequested, `wakeUps
      ensures refreshRequested && wakeUps == old(wakeUps) + 1
    {
      refreshRequested := true;
      NotifyAll();
    }

    method NotifyAll()
      modifies `wakeUps
      ensures wakeUps == old(wakeUps) + 1
    {
      wakeUps := wakeUps + 1;
    }

    /** `listed` is the machine's address list, read after the lock has been given up. */
    method AllowedAddresses(listed: seq<NetworkAddress>) returns (allowed: seq<NetworkAddress>)
      ensures allowed == Allowed(listed, excludedIds)
      ensures forall a :: a in allowed <==> a in listed && a.interfaceId !in excludedIds
    {
      var excluded := excludedIds;
      allowed := [];
      for i := 0 to |listed|
        invariant allowed == Allowed(listed[..i], excluded)
      {
        assert listed[..i + 1] == listed[..i] + [listed[i]];
        AllowedAppend(listed[..i], listed[i], excluded);
        if listed[i].interfaceId !in excluded {
          allowed := allowed + [listed[i]];
        }
      }
      assert listed[..|listed|] == listed;
      AllowedExactly(listed, excluded);
    }

    /** A thread that has ended but was not joined still counts. */
    method Start()
      modifies `stopping, `refreshRequested, `joinable, `registered
      ensures joinable
      ensures if old(joinable) then stopping == old(stopping) && refreshRequested == old(refreshRequested) &&
                                    registered == old(registered)
              else !stopping && refreshRequested && registered
    {
      if joinable {
        return;
      }
      stopping := false;
      refreshRequested := true;
      joinable := true;
      registered := true;
    }

    /** Stop, up to where it waits for the thread. */
    method BeginStop()
      modifies `registered, `stopping, `wakeUps
      ensures !registered && stopping && wakeUps == old(wakeUps) + 1
    {
      registered := false;
      stopping := true;
      NotifyAll();
    }

    /** The end of Stop: the thread, if there is one, has ended. */
    method FinishStop()
      modifies `joinable
      ensures !joinable
    {
      if joinable {
        joinable := false;
      }
    }

    /** The worker on waking: leaves, sleeps on, or takes the request and starts a pass. */
    method WakeUp(retry: bool, timedOut: bool) returns (w: Wake)
      modifies `refreshRequested
      ensures w == OnWake(stopping, old(refreshRequested), retry, timedOut)
      ensures refreshRequested == (old(refreshRequested) && !w.Pass?)
    {
      if stopping {
        return Leave;
      }
      if !refreshRequested && !(retry && timedOut) {
        return Sleep;
      }
      refreshRequested := false;
      return Pass;
    }
  }
}
