/** Whole histories of the remote control server: passes, stops and starts in any order
    (src/remoteControlServer.cpp:188-287). */
module BindReports {
  import opened Listeners
  import opened NetworkAddresses
  import opened Texts

  datatype Event =
    | Pass(allowed: seq<NetworkAddress>, opens: seq<bool>)
    | Start(port: nat)
    | Stop

  ghost predicate WellFormed(e: Event) {
    e.Pass? ==> |e.opens| == |e.allowed|
  }

  /** A new server with a bind-failure handler installed. */
  const INITIAL := Server(false, 3333, true, [], {}, 0, [], [])

  function Do(s: Server, e: Event): Server {
    match e
    case Pass(allowed, opens) => if |opens| == |allowed| then AfterPass(s, allowed, opens) else s
    case Start(port) => s.(running := true, port := port)
    case Stop => AllClosed(s)
  }

  function After(events: seq<Event>): Server
    decreases |events|
  {
    if events == [] then INITIAL else Do(After(events[..|events| - 1]), events[|events| - 1])
  }

  /** What each pass of the running server left without a listener, oldest pass first. */
  function Failing(events: seq<Event>): seq<set<Text>>
    decreases |events|
  {
    if events == [] then []
    else
      var before, e := events[..|events| - 1], events[|events| - 1];
      Failing(before) +
      if e.Pass? && After(before).running then [Addresses(e.allowed) - Bound(After(events).listeners)] else []
  }

  /** The number of maximal runs of consecutive passes in which an address fails. */
  function Episodes(failing: seq<set<Text>>, a: Text): nat
    decreases |failing|
  {
    if failing == [] then 0
    else
      var n := |failing| - 1;
      Episodes(failing[..n], a) + if a in failing[n] && (n == 0 || a !in failing[n - 1]) then 1 else 0
  }

  function ReportsOf(reports: seq<Report>, a: Text): nat
    decreases |reports|
  {
    if reports == [] then 0
    else ReportsOf(reports[..|reports| - 1], a) + if reports[|reports| - 1].address == a then 1 else 0
  }

  // ---------------------------------------------------------------- reports of one pass

  lemma ReportsAppend(reports: seq<Report>, r: Report, a: Text)
    ensures ReportsOf(reports + [r], a) == ReportsOf(reports, a) + if r.address == a then 1 else 0
  {
    assert (reports + [r])[..|reports|] == reports;
  }

  /** An address that is not among those tried is not reported. */
  lemma {:induction false} OthersNotReported(s: Server, allowed: seq<NetworkAddress>, opens: seq<bool>, a: Text)
    requires |opens| == |allowed| && a !in Addresses(allowed)
    ensures var s' := TriedAll(s, allowed, opens);
      ReportsOf(s'.reports, a) == ReportsOf(s.reports, a) && (a in s'.reported <==> a in s.reported)
      && (a in Bound(s'.listeners) <==> a in Bound(s.listeners))
    decreases |allowed|
  {
    if allowed != [] {
      var b := allowed[0].address;
      assert allowed == [allowed[0]] + allowed[1..];
      AddressesPrepend(allowed[0], allowed[1..]);
      ReportsAppend(s.reports, Report(b, s.port), a);
      BoundAppend(s.listeners, Listener(b, s.nextSerial));
      OthersNotReported(Tried(s, b, opens[0]), allowed[1..], opens[1..], a);
    }
  }

  /** Among distinct addresses, one that fails is reported once, unless it was reported already. */
  lemma {:induction false} TriesReport(s: Server, allowed: seq<NetworkAddress>, opens: seq<bool>, a: Text)
    requires |opens| == |allowed| && s.handler
    requires DistinctAddresses(allowed) && a in Addresses(allowed)
    ensures var s' := TriedAll(s, allowed, opens);
      ReportsOf(s'.reports, a) ==
        ReportsOf(s.reports, a) + if a !in Bound(s'.listeners) && a !in s.reported then 1 else 0
    decreases |allowed|
  {
    var b := allowed[0].address;
    var t := Tried(s, b, opens[0]);
    assert allowed == [allowed[0]] + allowed[1..];
    AddressesPrepend(allowed[0], allowed[1..]);
    ReportsAppend(s.reports, Report(b, s.port), a);
    BoundAppend(s.listeners, Listener(b, s.nextSerial));
    DistinctTail(allowed);
    if a == b {
      OthersNotReported(t, allowed[1..], opens[1..], a);
    } else {
      TriesReport(t, allowed[1..], opens[1..], a);
    }
  }

  lemma PassReports(s: Server, allowed: seq<NetworkAddress>, opens: seq<bool>, a: Text)
    requires |opens| == |allowed| && s.running && s.handler && DistinctAddresses(allowed)
    ensures var s' := AfterPass(s, allowed, opens);
      var failing := Addresses(allowed) - Bound(s'.listeners);
      ReportsOf(s'.reports, a) == ReportsOf(s.reports, a) + if a in failing && a !in s.reported then 1 else 0
  {
    var pruned := Pruned(s, Addresses(allowed));
    if a in Addresses(allowed) {
      TriesReport(pruned, allowed, opens, a);
    } else {
      OthersNotReported(pruned, allowed, opens, a);
    }
  }

  // ---------------------------------------------------------------- whole histories

  ghost predicate Proper(events: seq<Event>) {
    forall i :: 0 <= i < |events| ==>
      WellFormed(events[i]) && (events[i].Pass? ==> DistinctAddresses(events[i].allowed))
  }

  function LastFailing(events: seq<Event>): set<Text> {
    var f := Failing(events);
    if f == [] then {} else f[|f| - 1]
  }

  lemma EpisodesAppend(failing: seq<set<Text>>, last: set<Text>, a: Text)
    ensures Episodes(failing + [last], a) ==
      Episodes(failing, a) + if a in last && (failing == [] || a !in failing[|failing| - 1]) then 1 else 0
  {
    assert (failing + [last])[..|failing|] == failing;
  }

  /** What one event adds. */
  lemma EventReports(s: Server, e: Event, a: Text)
    requires WellFormed(e) && s.handler && (e.Pass? ==> DistinctAddresses(e.allowed))
    ensures var s' := Do(s, e);
      && s'.handler
      && (e.Pass? && s.running ==>
            var failing := Addresses(e.allowed) - Bound(s'.listeners);
            && s'.reported == failing
            && ReportsOf(s'.reports, a) == ReportsOf(s.reports, a) + if a in failing && a !in s.reported then 1 else 0)
      && (!(e.Pass? && s.running) ==> s'.reported == s.reported && s'.reports == s.reports)
  {
    if e.Pass? && s.running {
      PassEdits(s, e.allowed, e.opens);
      PassSettles(s, e.allowed, e.opens);
      PassReports(s, e.allowed, e.opens, a);
      hide AfterPass, ReportsOf;
    }
  }

  lemma ProperPrefix(events: seq<Event>)
    requires events != [] && Proper(events)
    ensures Proper(events[..|events| - 1])
    ensures var e := events[|events| - 1]; WellFormed(e) && (e.Pass? ==> DistinctAddresses(e.allowed))
  {
    var before := events[..|events| - 1];
    forall i | 0 <= i < |before|
      ensures WellFormed(before[i]) && (before[i].Pass? ==> DistinctAddresses(before[i].allowed))
    {
      assert before[i] == events[i];
    }
  }

  lemma FailingAppend(events: seq<Event>)
    requires events != []
    ensures var before, e := events[..|events| - 1], events[|events| - 1];
      && After(events) == Do(After(before), e)
      && Failing(events) ==
           if e.Pass? && After(before).running
            then Failing(before) + [Addresses(e.allowed) - Bound(After(events).listeners)]
           else Failing(before)
  {
    assert Failing(events[..|events| - 1]) + [] == Failing(events[..|events| - 1]);
  }

  /** Over any history, an address is reported once per episode: as often as there are maximal runs of
      consecutive passes in which it is allowed but cannot be opened. After each pass the reported
      addresses are exactly those allowed without a listener. */
  lemma {:induction false} ReportedOncePerEpisode(events: seq<Event>, a: Text)
    requires Proper(events)
    ensures After(events).handler
    ensures After(events).reported == LastFailing(events)
    ensures ReportsOf(After(events).reports, a) == Episodes(Failing(events), a)
    decreases |events|
  {
    if events != [] {
      var before, e := events[..|events| - 1], events[|events| - 1];
      ProperPrefix(events);
      ReportedOncePerEpisode(before, a);
      EventReports(After(before), e, a);
      FailingAppend(events);
      hide Do, ReportsOf, Episodes, After, Failing;
      if e.Pass? && After(before).running {
        EpisodesAppend(Failing(before), Addresses(e.allowed) - Bound(After(events).listeners), a);
      }
    }
  }

  // ---------------------------------------------------------------- conservation of listeners

  /** Every listener ever opened is either still listening or has been closed, once. */
  ghost predicate NoLeak(s: Server) {
    var all := multiset(s.closed) + multiset(s.listeners);
    && |all| == s.nextSerial
    && (forall l :: l in all ==> l.serial < s.nextSerial && all[l] == 1)
    && (forall k, l :: k in all && l in all && k.serial == l.serial ==> k == l)
  }

  lemma TriedNoLeak(s: Server, a: Text, opens: bool)
    requires NoLeak(s)
    ensures NoLeak(Tried(s, a, opens))
  {}

  lemma {:induction false} TriesNoLeak(s: Server, allowed: seq<NetworkAddress>, opens: seq<bool>)
    requires |opens| == |allowed| && NoLeak(s)
    ensures NoLeak(TriedAll(s, allowed, opens))
    decreases |allowed|
  {
    if allowed != [] {
      hide NoLeak, Tried;
      TriedNoLeak(s, allowed[0].address, opens[0]);
      TriesNoLeak(Tried(s, allowed[0].address, opens[0]), allowed[1..], opens[1..]);
    }
  }

  lemma PrunedNoLeak(s: Server, wanted: set<Text>)
    requires NoLeak(s)
    ensures NoLeak(Pruned(s, wanted))
  {
    PruneConserves(s.listeners, wanted);
    var kept, gone := Wanted(s.listeners, wanted), Unwanted(s.listeners, wanted);
    assert multiset(s.closed + gone) + multiset(kept) == multiset(s.closed) + multiset(s.listeners);
  }

  lemma AllClosedNoLeak(s: Server)
    requires NoLeak(s)
    ensures NoLeak(AllClosed(s))
  {
    assert multiset(s.closed + s.listeners) == multiset(s.closed) + multiset(s.listeners);
  }

  /** Over any history nothing leaks and nothing is closed twice; and a stopped server has no listener. */
  lemma {:induction false} ListenersConserved(events: seq<Event>)
    ensures NoLeak(After(events))
    ensures !After(events).running ==> After(events).listeners == []
    decreases |events|
  {
    if events != [] {
      var before, e := events[..|events| - 1], events[|events| - 1];
      ListenersConserved(before);
      var s := After(before);
      match e
      case Pass(allowed, opens) =>
        if |opens| == |allowed| && s.running {
          PassEdits(s, allowed, opens);
          hide NoLeak, Pruned, TriedAll;
          PrunedNoLeak(s, Addresses(allowed));
          TriesNoLeak(Pruned(s, Addresses(allowed)), allowed, opens);
        }
      case Start(port) =>
      case Stop => AllClosedNoLeak(s);
    }
  }

  /** After a stop nothing is opened, closed or reported until the next start. */
  lemma {:induction false} NothingOpensAfterStop(events: seq<Event>, later: seq<Event>)
    requires forall i :: 0 <= i < |later| ==> !later[i].Start?
    ensures After(events + [Stop] + later) == After(events + [Stop])
    ensures After(events + [Stop]).listeners == []
    decreases |later|
  {
    var start := events + [Stop];
    assert start[..|events|] == events;
    if later == [] {
      assert start + later == start;
    } else {
      var all, fewer := start + later, later[..|later| - 1];
      assert all[..|all| - 1] == start + fewer;
      NothingOpensAfterStop(events, fewer);
      assert After(start).closed + [] == After(start).closed;
    }
  }
}
