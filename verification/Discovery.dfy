/** The sockets of the service discovery server, one per address, and their reconciliation with the
    allowed addresses (src/serviceDiscoveryServer.cpp:45-100). A socket keeps the interface it was
    restricted to when it was opened. */
module Discovery {
  import opened NetworkAddresses
  import opened Texts
  import opened Tries

  /** One open socket; the serial number tells apart sockets opened at different times. */
  datatype Socket = Socket(serial: nat, interfaceId: Text)

  /** The sockets by address, how many have been opened, and which were closed. */
  datatype Sockets = Sockets(byAddress: map<Text, Socket>, nextSerial: nat, closed: set<Socket>)

  const NONE := Sockets(map[], 0, {})

  function Pruned(s: Sockets, wanted: set<Text>): Sockets {
    s.(byAddress := map a | a in s.byAddress && a in wanted :: s.byAddress[a],
       closed := s.closed + set a | a in s.byAddress && a !in wanted :: s.byAddress[a])
  }

  function Tried(s: Sockets, a: NetworkAddress, opens: bool): Sockets {
    if a.address in s.byAddress || !opens then s
    else
      s.(byAddress := s.byAddress[a.address := Socket(s.nextSerial, a.interfaceId)], nextSerial := s.nextSerial + 1)
  }

  function TriedAll(s: Sockets, allowed: seq<NetworkAddress>, opens: seq<bool>): Sockets
    requires |opens| == |allowed|
    decreases |allowed|
  {
    if allowed == [] then s else TriedAll(Tried(s, allowed[0], opens[0]), allowed[1..], opens[1..])
  }

  predicate AllServed(s: Sockets, allowed: seq<NetworkAddress>, opens: seq<bool>)
    requires |opens| == |allowed|
    decreases |allowed|
  {
    allowed == [] ||
    ((allowed[0].address in s.byAddress || opens[0]) &&
     AllServed(Tried(s, allowed[0], opens[0]), allowed[1..], opens[1..]))
  }

  function AfterPass(s: Sockets, allowed: seq<NetworkAddress>, opens: seq<bool>): Sockets
    requires |opens| == |allowed|
  {
    TriedAll(Pruned(s, Addresses(allowed)), allowed, opens)
  }

  predicate PassComplete(s: Sockets, allowed: seq<NetworkAddress>, opens: seq<bool>)
    requires |opens| == |allowed|
  {
    AllServed(Pruned(s, Addresses(allowed)), allowed, opens)
  }

  function AllClosed(s: Sockets): Sockets {
    s.(byAddress := map[], closed := s.closed + s.byAddress.Values)
  }

  class ServiceDiscoveryServer {
    var listeners: map<Text, Socket>
    var nextSerial: nat
    var closed: set<Socket>

    function Current(): Sockets
      reads this
    {
      Sockets(listeners, nextSerial, closed)
    }

    constructor ()
      ensures Current() == NONE
    {
      listeners, nextSerial, closed := map[], 0, {};
    }

    /** `opens[i]` is what opening a socket for the i-th allowed address would answer. */
    method Reconcile(allowed: seq<NetworkAddress>, opens: seq<bool>) returns (complete: bool)
      requires |opens| == |allowed|
      modifies this
      ensures Current() == AfterPass(old(Current()), allowed, opens)
      ensures complete == PassComplete(old(Current()), allowed, opens)
    {
      var wanted := Addresses(allowed);
      CloseUnwanted(wanted);
      ghost var pruned := Pruned(old(Current()), wanted);
      complete := true;
      for i := 0 to |allowed|
        invariant TriedAll(Current(), allowed[i..], opens[i..]) == TriedAll(pruned, allowed, opens)
        invariant complete && AllServed(Current(), allowed[i..], opens[i..]) <==> AllServed(pruned, allowed, opens)
      {
        assert allowed[i..][1..] == allowed[i + 1..] && opens[i..][1..] == opens[i + 1..];
        if allowed[i].address !in listeners {
          var ok := Open(allowed[i], opens[i]);
          if !ok {
            complete := false;
          }
        }
      }
    }

    /** A socket restricted to the interface the address is listed under. */
    method Open(a: NetworkAddress, opens: bool) returns (ok: bool)
      modifies `listeners, `nextSerial
      ensures ok == opens
      ensures ok ==> listeners == old(listeners)[a.address := Socket(old(nextSerial), a.interfaceId)] &&
                     nextSerial == old(nextSerial) + 1
      ensures !ok ==> listeners == old(listeners) && nextSerial == old(nextSerial)
    {
      if opens {
        listeners := listeners[a.address := Socket(nextSerial, a.interfaceId)];
        nextSerial := nextSerial + 1;
      }
      ok := opens;
    }

    /** The first loop of a pass, erasing from the map it walks. */
    method CloseUnwanted(wanted: set<Text>)
      modifies `listeners, `closed
      ensures Current() == Pruned(old(Current()), wanted)
    {
      ghost var before := Current();
      var todo := listeners.Keys;
      while todo != {}
        invariant todo <= before.byAddress.Keys
        invariant listeners == map a | a in before.byAddress && (a in wanted || a in todo) :: before.byAddress[a]
        invariant closed == before.closed +
          set a | a in before.byAddress && a !in wanted && a !in todo :: before.byAddress[a]
        decreases todo
      {
        var address :| address in todo;
        if address !in wanted {
          closed := closed + {listeners[address]};
          listeners := listeners - {address};
        }
        todo := todo - {address};
      }
    }

    method CloseAll()
      modifies this
      ensures Current() == AllClosed(old(Current()))
    {
      closed := closed + listeners.Values;
      listeners := map[];
    }
  }

  // ---------------------------------------------------------------- what one pass does

  ghost predicate Extends(s: Sockets, s': Sockets, allowed: set<Text>) {
    && s'.closed == s.closed
    && s.nextSerial <= s'.nextSerial
    && (forall a :: a in s.byAddress ==> a in s'.byAddress && s'.byAddress[a] == s.byAddress[a])
    && (forall a :: a in s'.byAddress && a !in s.byAddress ==>
          a in allowed && s.nextSerial <= s'.byAddress[a].serial < s'.nextSerial)
  }

  lemma {:induction false} TriesExtend(s: Sockets, allowed: seq<NetworkAddress>, opens: seq<bool>)
    requires |opens| == |allowed|
    ensures Extends(s, TriedAll(s, allowed, opens), Addresses(allowed))
    decreases |allowed|
  {
    if allowed != [] {
      assert allowed == [allowed[0]] + allowed[1..];
      AddressesPrepend(allowed[0], allowed[1..]);
      TriesExtend(Tried(s, allowed[0], opens[0]), allowed[1..], opens[1..]);
      hide Addresses;
    }
  }

  /** On the addresses alone, the tries are those of `Tries`. */
  lemma {:induction false} TriesOnAddresses(s: Sockets, allowed: seq<NetworkAddress>, opens: seq<bool>)
    requires |opens| == |allowed|
    ensures TriedAll(s, allowed, opens).byAddress.Keys == BoundAfter(s.byAddress.Keys, allowed, opens)
    ensures AllServed(s, allowed, opens) <==> EachServed(s.byAddress.Keys, allowed, opens)
    decreases |allowed|
  {
    if allowed != [] {
      var t := Tried(s, allowed[0], opens[0]);
      assert t.byAddress.Keys == BoundOnce(s.byAddress.Keys, allowed[0].address, opens[0]);
      hide Tried;
      TriesOnAddresses(t, allowed[1..], opens[1..]);
    }
  }

  lemma PrunedKeys(s: Sockets, allowed: seq<NetworkAddress>)
    ensures Pruned(s, Addresses(allowed)).byAddress.Keys == s.byAddress.Keys * Addresses(allowed)
  {}

  ghost predicate Agrees(s: Sockets, allowed: seq<NetworkAddress>) {
    s.byAddress.Keys == Addresses(allowed)
  }

  /** A pass keeps the wanted sockets as they are, closes the others, and opens sockets only for allowed
      addresses without one. */
  lemma PassEdits(s: Sockets, allowed: seq<NetworkAddress>, opens: seq<bool>)
    requires |opens| == |allowed|
    ensures var s' := AfterPass(s, allowed, opens);
      && (forall a :: a in s.byAddress && a in Addresses(allowed) ==>
            a in s'.byAddress && s'.byAddress[a] == s.byAddress[a])
      && (forall a :: a in s'.byAddress && a !in s.byAddress ==>
            s.nextSerial <= s'.byAddress[a].serial < s'.nextSerial)
      && s'.closed == s.closed + (set a | a in s.byAddress && a !in Addresses(allowed) :: s.byAddress[a])
      && s'.byAddress.Keys <= Addresses(allowed)
  {
    TriesExtend(Pruned(s, Addresses(allowed)), allowed, opens);
    hide TriedAll, Addresses;
  }

  /** A complete pass leaves exactly the allowed addresses served. A pass that leaves them so is incomplete
      exactly if an address had no socket before, failed at its first try and succeeded at a later one. */
  lemma PassAgrees(s: Sockets, allowed: seq<NetworkAddress>, opens: seq<bool>)
    requires |opens| == |allowed|
    ensures PassComplete(s, allowed, opens) ==> Agrees(AfterPass(s, allowed, opens), allowed)
    ensures Agrees(AfterPass(s, allowed, opens), allowed) ==>
      (!PassComplete(s, allowed, opens) <==> exists i, j :: ServedLate(s.byAddress.Keys, allowed, opens, i, j))
  {
    var p := Pruned(s, Addresses(allowed));
    var keys := p.byAddress.Keys;
    PassEdits(s, allowed, opens);
    PrunedKeys(s, allowed);
    TriesOnAddresses(p, allowed, opens);
    if EachServed(keys, allowed, opens) {
      ServedEndsBound(keys, allowed, opens);
    }
    LateAmong(s.byAddress.Keys, allowed, opens);
    hide ServedLate, EachServed, BoundAfter, TriedAll, AllServed, Pruned, Addresses;
    if Addresses(allowed) <= BoundAfter(keys, allowed, opens) {
      UnservedMeansLate(keys, allowed, opens);
    }
  }

  // ---------------------------------------------------------------- which interface a socket is on

  /** Every socket is on the interface its address is listed under. */
  ghost predicate OnListedInterfaces(s: Sockets, allowed: seq<NetworkAddress>) {
    forall a :: a in allowed && a.address in s.byAddress ==> s.byAddress[a.address].interfaceId == a.interfaceId
  }

  /** A new socket is on the interface of the first try of its address that succeeds. */
  lemma {:induction false} NewSocketInterface(s: Sockets, allowed: seq<NetworkAddress>, opens: seq<bool>, j: nat)
    requires |opens| == |allowed| && allowed != [] && FirstSuccess(allowed, opens, j)
    requires allowed[j].address !in s.byAddress
    ensures var s' := TriedAll(s, allowed, opens); var address := allowed[j].address;
      address in s'.byAddress && s'.byAddress[address].interfaceId == allowed[j].interfaceId
    decreases |allowed|
  {
    var t := Tried(s, allowed[0], opens[0]);
    TriesExtend(t, allowed[1..], opens[1..]);
    if j > 0 {
      assert FirstSuccess(allowed[1..], opens[1..], j - 1);
      NewSocketInterface(t, allowed[1..], opens[1..], j - 1);
    }
    hide Addresses;
  }

  /** After a pass the socket of an address is on another interface than the one the address is listed under
      exactly if it was already open, on another one, or was opened for an earlier listing with another one. */
  lemma SocketInterface(s: Sockets, allowed: seq<NetworkAddress>, opens: seq<bool>, a: NetworkAddress)
    requires |opens| == |allowed| && a in allowed
    requires a.address in AfterPass(s, allowed, opens).byAddress
    ensures AfterPass(s, allowed, opens).byAddress[a.address].interfaceId == a.interfaceId <==>
      if a.address in s.byAddress then s.byAddress[a.address].interfaceId == a.interfaceId
      else exists j: nat :: FirstSuccess(allowed, opens, j) && allowed[j].address == a.address &&
                            allowed[j].interfaceId == a.interfaceId
  {
    var p := Pruned(s, Addresses(allowed));
    PassEdits(s, allowed, opens);
    PrunedKeys(s, allowed);
    if a.address !in s.byAddress {
      TriesOnAddresses(p, allowed, opens);
      BoundAfterExactly(p.byAddress.Keys, allowed, opens, a.address);
      hide TriedAll, Addresses, BoundAfter, AllServed, EachServed, FirstSuccess;
      var j := FirstSuccessOf(allowed, opens, a.address);
      NewSocketInterface(p, allowed, opens, j);
      forall k: nat | FirstSuccess(allowed, opens, k) && allowed[k].address == a.address
        ensures k == j
      {
        FirstSuccessUnique(allowed, opens, j, k);
      }
    }
  }

  /** For distinct addresses: after a pass every socket is on the interface its address is listed under exactly
      if no address had moved to another interface while its socket was open. Such a socket stays where it is,
      even if that interface has been excluded since. */
  lemma InterfacesExactly(s: Sockets, allowed: seq<NetworkAddress>, opens: seq<bool>)
    requires |opens| == |allowed| && DistinctAddresses(allowed)
    ensures OnListedInterfaces(AfterPass(s, allowed, opens), allowed) <==> OnListedInterfaces(s, allowed)
  {
    var s' := AfterPass(s, allowed, opens);
    PassEdits(s, allowed, opens);
    forall a | a in allowed && a.address in s'.byAddress
      ensures s'.byAddress[a.address].interfaceId == a.interfaceId <==>
        (a.address in s.byAddress ==> s.byAddress[a.address].interfaceId == a.interfaceId)
    {
      SocketInterface(s, allowed, opens, a);
      if a.address !in s.byAddress {
        var j := NewSocketIndex(s, allowed, opens, a);
      }
    }
    forall a | a in allowed
      ensures a.address in Addresses(allowed)
    {}
    hide AfterPass, Addresses;
  }

  lemma NewSocketIndex(s: Sockets, allowed: seq<NetworkAddress>, opens: seq<bool>, a: NetworkAddress) returns (j: nat)
    requires |opens| == |allowed| && DistinctAddresses(allowed) && a in allowed
    requires a.address !in s.byAddress && a.address in AfterPass(s, allowed, opens).byAddress
    ensures FirstSuccess(allowed, opens, j) && allowed[j] == a
  {
    var p := Pruned(s, Addresses(allowed));
    TriesOnAddresses(p, allowed, opens);
    BoundAfterExactly(p.byAddress.Keys, allowed, opens, a.address);
    hide TriedAll, BoundAfter, AllServed, EachServed, FirstSuccess, Addresses;
    j := FirstSuccessOf(allowed, opens, a.address);
    var i :| 0 <= i < |allowed| && allowed[i] == a;
  }

  /** If every socket opens, the pass is complete. */
  lemma AllOpenComplete(s: Sockets, allowed: seq<NetworkAddress>, opens: seq<bool>)
    requires |opens| == |allowed| && forall i :: 0 <= i < |opens| ==> opens[i]
    ensures PassComplete(s, allowed, opens)
  {
    var p := Pruned(s, Addresses(allowed));
    TriesOnAddresses(p, allowed, opens);
    AllOpenServed(p.byAddress.Keys, allowed, opens);
  }

  // ---------------------------------------------------------------- whole histories

  datatype Event = Pass(allowed: seq<NetworkAddress>, opens: seq<bool>) | Close

  function Do(s: Sockets, e: Event): Sockets {
    match e
    case Pass(allowed, opens) => if |opens| == |allowed| then AfterPass(s, allowed, opens) else s
    case Close => AllClosed(s)
  }

  function After(events: seq<Event>): Sockets
    decreases |events|
  {
    if events == [] then NONE else Do(After(events[..|events| - 1]), events[|events| - 1])
  }

  /** Every socket ever opened is open, at one address, or has been closed. */
  ghost predicate NoLeak(s: Sockets) {
    && (forall a :: a in s.byAddress ==> s.byAddress[a].serial < s.nextSerial)
    && (forall c :: c in s.closed ==> c.serial < s.nextSerial)
    && (forall a, b :: a in s.byAddress && b in s.byAddress && a != b ==>
          s.byAddress[a].serial != s.byAddress[b].serial)
    && (forall a, c :: a in s.byAddress && c in s.closed ==> s.byAddress[a].serial != c.serial)
    && (forall n: nat :: n < s.nextSerial ==> Opened(s, n))
  }

  ghost predicate Opened(s: Sockets, n: nat) {
    (exists a :: a in s.byAddress && s.byAddress[a].serial == n) || (exists c :: c in s.closed && c.serial == n)
  }

  lemma OpenedNoLeak(s: Sockets, address: Text, interfaceId: Text)
    requires NoLeak(s) && address !in s.byAddress
    ensures NoLeak(s.(byAddress := s.byAddress[address := Socket(s.nextSerial, interfaceId)],
                      nextSerial := s.nextSerial + 1))
  {
    var s' := s.(byAddress := s.byAddress[address := Socket(s.nextSerial, interfaceId)],
                 nextSerial := s.nextSerial + 1);
    forall n: nat | n < s'.nextSerial
      ensures Opened(s', n)
    {
      if n == s.nextSerial {
        assert address in s'.byAddress && s'.byAddress[address].serial == n;
      } else {
        assert Opened(s, n);
        OpenedStays(s, s', n);
      }
    }
    hide Opened;
  }

  lemma OpenedStays(s: Sockets, s': Sockets, n: nat)
    requires Opened(s, n) && s'.closed == s.closed
    requires forall b :: b in s.byAddress ==> b in s'.byAddress && s'.byAddress[b] == s.byAddress[b]
    ensures Opened(s', n)
  {
    if b :| b in s.byAddress && s.byAddress[b].serial == n {
      assert b in s'.byAddress && s'.byAddress[b].serial == n;
    }
  }

  lemma TriedNoLeak(s: Sockets, a: NetworkAddress, opens: bool)
    requires NoLeak(s)
    ensures NoLeak(Tried(s, a, opens))
  {
    hide NoLeak;
    if a.address !in s.byAddress && opens {
      OpenedNoLeak(s, a.address, a.interfaceId);
    }
  }

  lemma {:induction false} TriesNoLeak(s: Sockets, allowed: seq<NetworkAddress>, opens: seq<bool>)
    requires |opens| == |allowed| && NoLeak(s)
    ensures NoLeak(TriedAll(s, allowed, opens))
    decreases |allowed|
  {
    if allowed != [] {
      hide NoLeak, Tried;
      TriedNoLeak(s, allowed[0], opens[0]);
      TriesNoLeak(Tried(s, allowed[0], opens[0]), allowed[1..], opens[1..]);
    }
  }

  lemma PrunedNoLeak(s: Sockets, wanted: set<Text>)
    requires NoLeak(s)
    ensures NoLeak(Pruned(s, wanted))
  {
    var s' := Pruned(s, wanted);
    forall n: nat | n < s'.nextSerial
      ensures Opened(s', n)
    {
      assert Opened(s, n);
      if b :| b in s.byAddress && s.byAddress[b].serial == n {
        assert b in wanted ==> b in s'.byAddress && s'.byAddress[b].serial == n;
        assert b !in wanted ==> s.byAddress[b] in s'.closed;
      }
    }
  }

  lemma AllClosedNoLeak(s: Sockets)
    requires NoLeak(s)
    ensures NoLeak(AllClosed(s))
  {
    var s' := AllClosed(s);
    forall n: nat | n < s'.nextSerial
      ensures Opened(s', n)
    {
      assert Opened(s, n);
      if b :| b in s.byAddress && s.byAddress[b].serial == n {
        assert s.byAddress[b] in s'.closed;
      }
    }
  }

  /** Over any history every socket ever opened is open, at one address, or has been closed, never both; after a
      stop all are closed. */
  lemma {:induction false} SocketsConserved(events: seq<Event>)
    ensures NoLeak(After(events))
    ensures events != [] && events[|events| - 1].Close? ==> After(events).byAddress == map[]
    decreases |events|
  {
    if events != [] {
      var before, e := events[..|events| - 1], events[|events| - 1];
      SocketsConserved(before);
      hide NoLeak, Pruned, TriedAll;
      match e
      case Pass(allowed, opens) =>
        if |opens| == |allowed| {
          PrunedNoLeak(After(before), Addresses(allowed));
          TriesNoLeak(Pruned(After(before), Addresses(allowed)), allowed, opens);
        }
      case Close => AllClosedNoLeak(After(before));
    }
  }
}
