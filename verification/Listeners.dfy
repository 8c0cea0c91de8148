/** The listeners of the remote control server and their reconciliation with the allowed addresses
    (src/remoteControlServer.cpp:188-287). */
module Listeners {
  import opened NetworkAddresses
  import opened Texts
  import opened Tries

  /** One bound listener; the serial number tells apart listeners opened at different times. */
  datatype Listener = Listener(address: Text, serial: nat)

  datatype Report = Report(address: Text, port: nat)

  /** The server's fields, and what it has done to the outside: how many listeners it has opened,
      which it has closed, and which bind failures it has reported. */
  datatype Server = Server(
    running: bool, port: nat, handler: bool,
    listeners: seq<Listener>, reported: set<Text>,
    nextSerial: nat, closed: seq<Listener>, reports: seq<Report>)

  // ---------------------------------------------------------------- one pass, as a function

  function Bound(ls: seq<Listener>): set<Text> {
    set l | l in ls :: l.address
  }

  function Wanted(ls: seq<Listener>, wanted: set<Text>): seq<Listener> {
    if ls == [] then []
    else (if ls[0].address in wanted then [ls[0]] else []) + Wanted(ls[1..], wanted)
  }

  function Unwanted(ls: seq<Listener>, wanted: set<Text>): seq<Listener> {
    if ls == [] then []
    else (if ls[0].address in wanted then [] else [ls[0]]) + Unwanted(ls[1..], wanted)
  }

  /** Listeners no longer wanted are closed; failures of addresses no longer wanted are forgotten. */
  function Pruned(s: Server, wanted: set<Text>): Server {
    s.(listeners := Wanted(s.listeners, wanted),
       closed := s.closed + Unwanted(s.listeners, wanted),
       reported := s.reported * wanted)
  }

  /** Is an address served after one try, where `opens` says whether binding it would succeed? */
  predicate Served(s: Server, address: Text, opens: bool) {
    address in Bound(s.listeners) || opens
  }

  /** One allowed address. */
  function Tried(s: Server, address: Text, opens: bool): Server {
    if address in Bound(s.listeners) then s.(reported := s.reported - {address})
    else if opens then
      s.(listeners := s.listeners + [Listener(address, s.nextSerial)], nextSerial := s.nextSerial + 1,
         reported := s.reported - {address})
    else if s.handler && address !in s.reported then
      s.(reported := s.reported + {address}, reports := s.reports + [Report(address, s.port)])
    else s
  }

  function TriedAll(s: Server, allowed: seq<NetworkAddress>, opens: seq<bool>): Server
    requires |opens| == |allowed|
    decreases |allowed|
  {
    if allowed == [] then s else TriedAll(Tried(s, allowed[0].address, opens[0]), allowed[1..], opens[1..])
  }

  predicate AllServed(s: Server, allowed: seq<NetworkAddress>, opens: seq<bool>)
    requires |opens| == |allowed|
    decreases |allowed|
  {
    allowed == [] ||
    (Served(s, allowed[0].address, opens[0]) &&
     AllServed(Tried(s, allowed[0].address, opens[0]), allowed[1..], opens[1..]))
  }

  function AfterPass(s: Server, allowed: seq<NetworkAddress>, opens: seq<bool>): Server
    requires |opens| == |allowed|
  {
    if s.running then TriedAll(Pruned(s, Addresses(allowed)), allowed, opens) else s
  }

  predicate PassComplete(s: Server, allowed: seq<NetworkAddress>, opens: seq<bool>)
    requires |opens| == |allowed|
  {
    s.running ==> AllServed(Pruned(s, Addresses(allowed)), allowed, opens)
  }

  function AllClosed(s: Server): Server {
    s.(running := false, closed := s.closed + s.listeners, listeners := [])
  }

  // ---------------------------------------------------------------- the class

  class RemoteControlServer {
    var running: bool
    var port: nat
    var bindFailure: bool              // a bind-failure handler is installed
    var listeners: seq<Listener>
    var reportedBindFailures: set<Text>
    var nextSerial: nat
    var closed: seq<Listener>
    var reports: seq<Report>

    function Current(): Server
      reads this
    {
      Server(running, port, bindFailure, listeners, reportedBindFailures, nextSerial, closed, reports)
    }

    constructor ()
      ensures Current() == Server(false, 3333, false, [], {}, 0, [], [])
    {
      running, port, bindFailure := false, 3333, false;
      listeners, reportedBindFailures := [], {};
      nextSerial, closed, reports := 0, [], [];
    }

    method Start(newPort: nat)
      modifies this
      ensures Current() == old(Current()).(running := true, port := newPort)
    {
      port := newPort;
      running := true;
    }

    method OnBindFailure()
      modifies this
      ensures Current() == old(Current()).(handler := true)
    {
      bindFailure := true;
    }

    method CloseAll()
      modifies this
      ensures Current() == AllClosed(old(Current()))
    {
      running := false;
      var before := closed;
      for i := 0 to |listeners|
        invariant !running && unchanged(`port, `bindFailure, `listeners, `reportedBindFailures, `nextSerial, `reports)
        invariant closed == before + listeners[..i]
      {
        closed := closed + [listeners[i]];
      }
      assert listeners[..|listeners|] == listeners;
      listeners := [];
    }

    /** `opens[i]` is what binding the i-th allowed address would answer. */
    method Reconcile(allowed: seq<NetworkAddress>, opens: seq<bool>) returns (complete: bool)
      requires |opens| == |allowed|
      modifies this
      ensures Current() == AfterPass(old(Current()), allowed, opens)
      ensures complete == PassComplete(old(Current()), allowed, opens)
    {
      if !running {
        return true;
      }
      var wanted := Addresses(allowed);
      CloseUnwanted(wanted);
      reportedBindFailures := set a | a in reportedBindFailures && a in wanted;
      ghost var pruned := Pruned(old(Current()), wanted);
      assert Current() == pruned;

      complete := true;
      for i := 0 to |allowed|
        invariant TriedAll(Current(), allowed[i..], opens[i..]) == TriedAll(pruned, allowed, opens)
        invariant complete && AllServed(Current(), allowed[i..], opens[i..]) <==> AllServed(pruned, allowed, opens)
      {
        assert allowed[i..][1..] == allowed[i + 1..] && opens[i..][1..] == opens[i + 1..];
        var served := TryAddress(allowed[i].address, opens[i]);
        complete := complete && served;
      }
    }

    /** The body of the last loop of a pass. */
    method TryAddress(address: Text, opens: bool) returns (served: bool)
      modifies this
      ensures Current() == Tried(old(Current()), address, opens)
      ensures served == Served(old(Current()), address, opens)
    {
      var bound := exists l :: l in listeners && l.address == address;
      assert bound <==> address in Bound(listeners);
      served := bound;
      if !bound {
        served := Open(address, opens);
      }
      if served {
        reportedBindFailures := reportedBindFailures - {address};
        return;
      }
      if bindFailure && address !in reportedBindFailures {
        reportedBindFailures := reportedBindFailures + {address};
        reports := reports + [Report(address, port)];
      }
    }

    method Open(address: Text, opens: bool) returns (ok: bool)
      modifies `listeners, `nextSerial
      ensures ok == opens
      ensures ok ==> listeners == old(listeners) + [Listener(address, old(nextSerial))] &&
                     nextSerial == old(nextSerial) + 1
      ensures !ok ==> listeners == old(listeners) && nextSerial == old(nextSerial)
    {
      if opens {
        listeners := listeners + [Listener(address, nextSerial)];
        nextSerial := nextSerial + 1;
      }
      ok := opens;
    }

    /** The first loop of a pass, erasing from the vector it walks. */
    method CloseUnwanted(wanted: set<Text>)
      modifies `listeners, `closed
      ensures listeners == Wanted(old(listeners), wanted)
      ensures closed == old(closed) + Unwanted(old(listeners), wanted)
    {
      var i := 0;
      ghost var rest := listeners;
      ghost var goal, closing := Wanted(listeners, wanted), closed + Unwanted(listeners, wanted);
      while i < |listeners|
        invariant i <= |listeners| && listeners[i..] == rest
        invariant listeners[..i] + Wanted(rest, wanted) == goal
        invariant closed + Unwanted(rest, wanted) == closing
        decreases |rest|
      {
        var l := listeners[i];
        assert rest == [l] + listeners[i + 1..] && rest[1..] == listeners[i + 1..];
        if l.address in wanted {
          assert listeners[..i + 1] == listeners[..i] + [l];
          assert listeners[..i] + ([l] + Wanted(rest[1..], wanted)) == listeners[..i + 1] + Wanted(rest[1..], wanted);
          assert [] + Unwanted(rest[1..], wanted) == Unwanted(rest[1..], wanted);
          i := i + 1;
        } else {
          assert closed + ([l] + Unwanted(rest[1..], wanted)) == closed + [l] + Unwanted(rest[1..], wanted);
          assert [] + Wanted(rest[1..], wanted) == Wanted(rest[1..], wanted);
          closed := closed + [l];
          listeners := listeners[..i] + listeners[i + 1..];
        }
        rest := rest[1..];
      }
      assert listeners[..i] == listeners;
    }
  }

  // ---------------------------------------------------------------- what one pass does

  lemma BoundAppend(ls: seq<Listener>, l: Listener)
    ensures Bound(ls + [l]) == Bound(ls) + {l.address}
  {
    assert forall m :: m in ls + [l] <==> m in ls || m == l;
    assert l in ls + [l];
  }

  ghost predicate DistinctListeners(ls: seq<Listener>) {
    forall i, j :: 0 <= i < j < |ls| ==> ls[i].address != ls[j].address
  }

  /** Pruning keeps exactly the wanted listeners, in order, and closes exactly the others. */
  lemma {:induction false} PruneSplits(ls: seq<Listener>, wanted: set<Text>)
    ensures forall l :: l in Wanted(ls, wanted) <==> l in ls && l.address in wanted
    ensures forall l :: l in Unwanted(ls, wanted) <==> l in ls && l.address !in wanted
    ensures Bound(Wanted(ls, wanted)) == Bound(ls) * wanted
  {
    if ls != [] {
      PruneSplits(ls[1..], wanted);
      assert forall l :: l in ls <==> l == ls[0] || l in ls[1..];
    }
    var kept := Wanted(ls, wanted);
    forall a
      ensures a in Bound(kept) <==> a in Bound(ls) && a in wanted
    {}
  }

  lemma {:induction false} PruneConserves(ls: seq<Listener>, wanted: set<Text>)
    ensures multiset(Wanted(ls, wanted)) + multiset(Unwanted(ls, wanted)) == multiset(ls)
  {
    if ls != [] {
      PruneConserves(ls[1..], wanted);
      assert ls == [ls[0]] + ls[1..];
    }
  }

  lemma {:induction false} PruneKeepsDistinct(ls: seq<Listener>, wanted: set<Text>)
    requires DistinctListeners(ls)
    ensures DistinctListeners(Wanted(ls, wanted))
  {
    if ls != [] {
      PruneKeepsDistinct(ls[1..], wanted);
      PruneSplits(ls[1..], wanted);
      forall l | l in ls[1..]
        ensures l.address != ls[0].address
      {
        var j :| 0 <= j < |ls[1..]| && ls[1..][j] == l;
        assert ls[j + 1] == l;
      }
    }
  }

  ghost predicate Extends(s: Server, s': Server, allowed: set<Text>) {
    && s'.running == s.running && s'.port == s.port && s'.handler == s.handler && s'.closed == s.closed
    && s.nextSerial <= s'.nextSerial
    && s.listeners <= s'.listeners
    && |s'.listeners| - |s.listeners| == s'.nextSerial - s.nextSerial
    && (forall i :: |s.listeners| <= i < |s'.listeners| ==>
          && s'.listeners[i].address in allowed - Bound(s.listeners)
          && s'.listeners[i].serial == s.nextSerial + (i - |s.listeners|))
    && (DistinctListeners(s.listeners) ==> DistinctListeners(s'.listeners))
    && Bound(s.listeners) <= Bound(s'.listeners) <= Bound(s.listeners) + allowed
    && s.reports <= s'.reports
    && (forall i :: |s.reports| <= i < |s'.reports| ==>
          s'.reports[i].port == s.port && s'.reports[i].address in allowed)
  }

  lemma TriedExtends(s: Server, a: Text, opens: bool)
    ensures Extends(s, Tried(s, a, opens), {a})
  {
    BoundAppend(s.listeners, Listener(a, s.nextSerial));
  }

  lemma ExtendsTransitive(s: Server, t: Server, u: Server, a: set<Text>, b: set<Text>)
    requires Extends(s, t, a) && Extends(t, u, b)
    ensures Extends(s, u, a + b)
  {
    forall i | |s.listeners| <= i < |u.listeners|
      ensures u.listeners[i].address in a + b - Bound(s.listeners)
      ensures u.listeners[i].serial == s.nextSerial + (i - |s.listeners|)
    {
      assert i < |t.listeners| ==> u.listeners[i] == t.listeners[i];
    }
    assert forall i :: |s.reports| <= i < |t.reports| ==> u.reports[i] == t.reports[i];
  }

  /** The tries only add listeners, with new serial numbers, for allowed addresses not yet bound. */
  lemma {:induction false} TriesExtend(s: Server, allowed: seq<NetworkAddress>, opens: seq<bool>)
    requires |opens| == |allowed|
    ensures Extends(s, TriedAll(s, allowed, opens), Addresses(allowed))
    decreases |allowed|
  {
    if allowed != [] {
      var a := allowed[0].address;
      var t := Tried(s, a, opens[0]);
      TriedExtends(s, a, opens[0]);
      TriesExtend(t, allowed[1..], opens[1..]);
      assert allowed == [allowed[0]] + allowed[1..];
      AddressesPrepend(allowed[0], allowed[1..]);
      hide Extends, Tried;
      ExtendsTransitive(s, t, TriedAll(t, allowed[1..], opens[1..]), {a}, Addresses(allowed[1..]));
    }
  }

  ghost predicate Settled(s: Server, addresses: set<Text>) {
    forall a :: a in addresses ==> (a in s.reported <==> a !in Bound(s.listeners))
  }

  /** After the tries, an allowed address is reported exactly when it has no listener. */
  lemma {:induction false} TriesSettle(s: Server, allowed: seq<NetworkAddress>, opens: seq<bool>, done: set<Text>)
    requires |opens| == |allowed| && s.handler
    requires Settled(s, done)
    ensures var s' := TriedAll(s, allowed, opens);
      && Settled(s', done + Addresses(allowed))
      && s.reported - Addresses(allowed) <= s'.reported <= s.reported + Addresses(allowed)
    decreases |allowed|
  {
    if allowed == [] {
      assert done + Addresses(allowed) == done;
    } else {
      var a := allowed[0].address;
      var t := Tried(s, a, opens[0]);
      BoundAppend(s.listeners, Listener(a, s.nextSerial));
      TriesSettle(t, allowed[1..], opens[1..], done + {a});
      assert allowed == [allowed[0]] + allowed[1..];
      AddressesPrepend(allowed[0], allowed[1..]);
      assert done + {a} + Addresses(allowed[1..]) == done + Addresses(allowed);
    }
  }

  /** On the addresses alone, the tries are those of `Tries`. */
  lemma {:induction false} TriesOnAddresses(s: Server, allowed: seq<NetworkAddress>, opens: seq<bool>)
    requires |opens| == |allowed|
    ensures Bound(TriedAll(s, allowed, opens).listeners) == BoundAfter(Bound(s.listeners), allowed, opens)
    ensures AllServed(s, allowed, opens) <==> EachServed(Bound(s.listeners), allowed, opens)
    decreases |allowed|
  {
    if allowed != [] {
      var a := allowed[0].address;
      var t := Tried(s, a, opens[0]);
      BoundAppend(s.listeners, Listener(a, s.nextSerial));
      hide Bound;
      assert Bound(t.listeners) == BoundOnce(Bound(s.listeners), a, opens[0]);
      hide Tried;
      TriesOnAddresses(t, allowed[1..], opens[1..]);
    }
  }

  /** A pass of the running server is a minimal edit: the wanted listeners stay as they are and in
      order, the others are closed, and only allowed addresses that had no listener get one. */
  lemma PassEdits(s: Server, allowed: seq<NetworkAddress>, opens: seq<bool>)
    requires |opens| == |allowed| && s.running
    ensures var s', kept := AfterPass(s, allowed, opens), Wanted(s.listeners, Addresses(allowed));
      && s'.running && s'.port == s.port && s'.handler == s.handler
      && (forall l :: l in kept <==> l in s.listeners && l.address in Addresses(allowed))
      && s'.closed == s.closed + Unwanted(s.listeners, Addresses(allowed))
      && kept <= s'.listeners
      && (forall l :: l in s'.listeners[|kept|..] ==>
            l.address in Addresses(allowed) && l.address !in Bound(s.listeners) && l.serial >= s.nextSerial)
      && (DistinctListeners(s.listeners) ==> DistinctListeners(s'.listeners))
      && Bound(s'.listeners) <= Addresses(allowed)
      && s.reports <= s'.reports
      && (forall r :: r in s'.reports[|s.reports|..] ==> r.port == s.port && r.address in Addresses(allowed))
  {
    var wanted := Addresses(allowed);
    PruneSplits(s.listeners, wanted);
    if DistinctListeners(s.listeners) {
      PruneKeepsDistinct(s.listeners, wanted);
    }
    TriesExtend(Pruned(s, wanted), allowed, opens);
    hide TriedAll, Wanted, Unwanted;
  }

  ghost predicate Agrees(s: Server, allowed: seq<NetworkAddress>) {
    Bound(s.listeners) == Addresses(allowed)
  }

  /** A complete pass leaves exactly the allowed addresses with listeners. A pass that leaves them so is
      incomplete exactly if some address had no listener before, failed at its first try and succeeded at
      a later one; never if the allowed addresses are distinct. */
  lemma PassAgrees(s: Server, allowed: seq<NetworkAddress>, opens: seq<bool>)
    requires |opens| == |allowed| && s.running
    ensures PassComplete(s, allowed, opens) ==> Agrees(AfterPass(s, allowed, opens), allowed)
    ensures Agrees(AfterPass(s, allowed, opens), allowed) ==>
      (!PassComplete(s, allowed, opens) <==> exists i, j :: ServedLate(Bound(s.listeners), allowed, opens, i, j))
    ensures DistinctAddresses(allowed) ==>
      (PassComplete(s, allowed, opens) <==> Agrees(AfterPass(s, allowed, opens), allowed))
  {
    var wanted := Addresses(allowed);
    var p := Pruned(s, wanted);
    var bound := Bound(p.listeners);
    PassEdits(s, allowed, opens);
    PruneSplits(s.listeners, wanted);
    TriesOnAddresses(p, allowed, opens);
    if EachServed(bound, allowed, opens) {
      ServedEndsBound(bound, allowed, opens);
    }
    LateAmong(Bound(s.listeners), allowed, opens);
    hide ServedLate, EachServed, BoundAfter, Bound, TriedAll, AllServed, Wanted, Unwanted;
    if wanted <= BoundAfter(bound, allowed, opens) {
      UnservedMeansLate(bound, allowed, opens);
    }
    if DistinctAddresses(allowed) {
      DistinctNeverLate(bound, allowed, opens);
    }
  }

  /** A pass is complete exactly if each allowed address had a listener or one of its tries so far
      succeeds, and leaves exactly the allowed addresses with listeners if any of its tries does. */
  lemma PassCompleteExactly(s: Server, allowed: seq<NetworkAddress>, opens: seq<bool>)
    requires |opens| == |allowed| && s.running
    ensures PassComplete(s, allowed, opens) <==>
      forall i :: 0 <= i < |allowed| ==> ServedAt(Bound(s.listeners), allowed, opens, i)
    ensures Agrees(AfterPass(s, allowed, opens), allowed) <==>
      forall a :: a in allowed ==>
        a.address in Bound(s.listeners) || SucceedsWithin(allowed, opens, a.address, |allowed|)
  {
    var p := Pruned(s, Addresses(allowed));
    var bound := Bound(p.listeners);
    PassEdits(s, allowed, opens);
    PruneSplits(s.listeners, Addresses(allowed));
    TriesOnAddresses(p, allowed, opens);
    EachServedExactly(bound, allowed, opens);
    LateAmong(Bound(s.listeners), allowed, opens);
    hide ServedAt, ServedLate, SucceedsWithin, EachServed, BoundAfter, Bound, TriedAll, AllServed, Wanted, Unwanted;
    forall a | a in allowed
      ensures a.address in Addresses(allowed)
      ensures a.address in BoundAfter(bound, allowed, opens) <==>
        a.address in Bound(s.listeners) || SucceedsWithin(allowed, opens, a.address, |allowed|)
    {
      BoundAfterExactly(bound, allowed, opens, a.address);
    }
  }

  /** With an address listed twice, a pass can fail at first, succeed at second, and ask for a retry
      although nothing is left to do. */
  lemma IncompleteThoughAgreeing(a: NetworkAddress, s: Server)
    requires s.running && s.listeners == []
    ensures var allowed, opens := [a, a], [false, true];
      && !PassComplete(s, allowed, opens)
      && Bound(AfterPass(s, allowed, opens).listeners) == Addresses(allowed)
  {
    var allowed, opens := [a, a], [false, true];
    var p := Pruned(s, Addresses(allowed));
    assert allowed[1..] == [a] && opens[1..] == [true] && [a][1..] == [] && [true][1..] == [];
    var t := Tried(p, a.address, false);
    var u := Tried(t, a.address, true);
    assert TriedAll(p, allowed, opens) == TriedAll(t, [a], [true]) == TriedAll(u, [], []);
    BoundAppend([], Listener(a.address, t.nextSerial));
    assert [] + [Listener(a.address, t.nextSerial)] == u.listeners;
    assert a in allowed;
  }

  /** With a handler installed, a pass of the running server leaves reported exactly the allowed
      addresses that have no listener. */
  lemma PassSettles(s: Server, allowed: seq<NetworkAddress>, opens: seq<bool>)
    requires |opens| == |allowed| && s.running && s.handler
    ensures var s' := AfterPass(s, allowed, opens);
      s'.reported == Addresses(allowed) - Bound(s'.listeners)
  {
    PassEdits(s, allowed, opens);
    TriesSettle(Pruned(s, Addresses(allowed)), allowed, opens, {});
    assert {} + Addresses(allowed) == Addresses(allowed);
  }

  /** A stopped server's pass does nothing and is complete; without a handler nothing is reported. */
  lemma QuietPasses(s: Server, allowed: seq<NetworkAddress>, opens: seq<bool>)
    requires |opens| == |allowed|
    ensures !s.running ==> AfterPass(s, allowed, opens) == s && PassComplete(s, allowed, opens)
    ensures !s.handler ==> var s' := AfterPass(s, allowed, opens); s'.reports == s.reports && s'.reported <= s.reported
  {
    if !s.handler {
      TriesQuiet(Pruned(s, Addresses(allowed)), allowed, opens);
    }
    hide TriedAll, Addresses;
  }

  lemma {:induction false} TriesQuiet(s: Server, allowed: seq<NetworkAddress>, opens: seq<bool>)
    requires |opens| == |allowed| && !s.handler
    ensures var s' := TriedAll(s, allowed, opens); s'.reports == s.reports && s'.reported <= s.reported
    decreases |allowed|
  {
    if allowed != [] {
      TriesQuiet(Tried(s, allowed[0].address, opens[0]), allowed[1..], opens[1..]);
    }
  }

  /** If every binding succeeds, the pass is complete. */
  lemma AllOpenComplete(s: Server, allowed: seq<NetworkAddress>, opens: seq<bool>)
    requires |opens| == |allowed| && forall i :: 0 <= i < |opens| ==> opens[i]
    ensures PassComplete(s, allowed, opens)
  {
    var p := Pruned(s, Addresses(allowed));
    TriesOnAddresses(p, allowed, opens);
    AllOpenServed(Bound(p.listeners), allowed, opens);
  }
}
