/** The tries of a pass on the addresses alone: which end up bound, and whether each try was served
    (src/remoteControlServer.cpp:213-227, src/serviceDiscoveryServer.cpp:85-89). */
module Tries {
  import opened NetworkAddresses
  import opened Texts

  /** The bound addresses after trying each allowed address in turn; opens[i] is what binding would answer. */
  function BoundAfter(bound: set<Text>, allowed: seq<NetworkAddress>, opens: seq<bool>): set<Text>
    requires |opens| == |allowed|
    decreases |allowed|
  {
    if allowed == [] then bound
    else BoundAfter(BoundOnce(bound, allowed[0].address, opens[0]), allowed[1..], opens[1..])
  }

  function BoundOnce(bound: set<Text>, address: Text, opens: bool): set<Text> {
    if opens then bound + {address} else bound
  }

  /** Every try finds its address bound already or binds it. */
  predicate EachServed(bound: set<Text>, allowed: seq<NetworkAddress>, opens: seq<bool>)
    requires |opens| == |allowed|
    decreases |allowed|
  {
    allowed == [] ||
    ((allowed[0].address in bound || opens[0]) &&
     EachServed(BoundOnce(bound, allowed[0].address, opens[0]), allowed[1..], opens[1..]))
  }

  /** One of the first n tries is for the address and would bind it. */
  predicate SucceedsWithin(allowed: seq<NetworkAddress>, opens: seq<bool>, address: Text, n: nat)
    requires n <= |allowed| == |opens|
  {
    exists j :: 0 <= j < n && allowed[j].address == address && opens[j]
  }

  lemma SucceedsTail(allowed: seq<NetworkAddress>, opens: seq<bool>, address: Text, n: nat)
    requires 0 < n <= |allowed| == |opens|
    ensures SucceedsWithin(allowed, opens, address, n) <==>
            (allowed[0].address == address && opens[0]) || SucceedsWithin(allowed[1..], opens[1..], address, n - 1)
  {
    if SucceedsWithin(allowed, opens, address, n) {
      var j :| 0 <= j < n && allowed[j].address == address && opens[j];
      if j > 0 {
        assert allowed[1..][j - 1].address == address && opens[1..][j - 1];
      }
    }
    if SucceedsWithin(allowed[1..], opens[1..], address, n - 1) {
      var j :| 0 <= j < n - 1 && allowed[1..][j].address == address && opens[1..][j];
      assert allowed[j + 1].address == address && opens[j + 1];
    }
  }

  lemma {:induction false} BoundAfterExactly(bound: set<Text>, allowed: seq<NetworkAddress>, opens: seq<bool>, a: Text)
    requires |opens| == |allowed|
    ensures a in BoundAfter(bound, allowed, opens) <==> a in bound || SucceedsWithin(allowed, opens, a, |allowed|)
    decreases |allowed|
  {
    if allowed != [] {
      SucceedsTail(allowed, opens, a, |allowed|);
      BoundAfterExactly(BoundOnce(bound, allowed[0].address, opens[0]), allowed[1..], opens[1..], a);
      hide SucceedsWithin;
    }
  }

  /** The i-th try is served: its address was bound before, or by one of the tries up to this one. */
  predicate ServedAt(bound: set<Text>, allowed: seq<NetworkAddress>, opens: seq<bool>, i: nat)
    requires i < |allowed| == |opens|
  {
    allowed[i].address in bound || SucceedsWithin(allowed, opens, allowed[i].address, i + 1)
  }

  lemma ServedAtTail(bound: set<Text>, allowed: seq<NetworkAddress>, opens: seq<bool>, i: nat)
    requires 0 < i < |allowed| == |opens|
    ensures ServedAt(bound, allowed, opens, i) <==>
            ServedAt(BoundOnce(bound, allowed[0].address, opens[0]), allowed[1..], opens[1..], i - 1)
  {
    SucceedsTail(allowed, opens, allowed[i].address, i + 1);
    hide SucceedsWithin;
  }

  lemma ServedAtFirst(bound: set<Text>, allowed: seq<NetworkAddress>, opens: seq<bool>)
    requires 0 < |allowed| == |opens|
    ensures ServedAt(bound, allowed, opens, 0) <==> allowed[0].address in bound || opens[0]
  {
    SucceedsTail(allowed, opens, allowed[0].address, 1);
  }

  lemma {:induction false} EachServedExactly(bound: set<Text>, allowed: seq<NetworkAddress>, opens: seq<bool>)
    requires |opens| == |allowed|
    ensures EachServed(bound, allowed, opens) <==> forall i :: 0 <= i < |allowed| ==> ServedAt(bound, allowed, opens, i)
    decreases |allowed|
  {
    hide ServedAt;
    if allowed != [] {
      var next := BoundOnce(bound, allowed[0].address, opens[0]);
      EachServedExactly(next, allowed[1..], opens[1..]);
      ServedAtFirst(bound, allowed, opens);
      forall i | 0 < i < |allowed|
        ensures ServedAt(bound, allowed, opens, i) <==> ServedAt(next, allowed[1..], opens[1..], i - 1)
      {
        ServedAtTail(bound, allowed, opens, i);
      }
      if forall i :: 0 <= i < |allowed| ==> ServedAt(bound, allowed, opens, i) {
        forall i | 0 <= i < |allowed[1..]|
          ensures ServedAt(next, allowed[1..], opens[1..], i)
        {
          assert ServedAt(bound, allowed, opens, i + 1);
        }
      }
    }
  }

  /** The first try of an unbound address fails, and a later one succeeds. */
  predicate ServedLate(bound: set<Text>, allowed: seq<NetworkAddress>, opens: seq<bool>, i: nat, j: nat)
    requires |opens| == |allowed|
  {
    && i < j < |allowed| && allowed[i].address == allowed[j].address && allowed[i].address !in bound
    && !opens[i] && opens[j]
    && forall k :: 0 <= k < i ==> allowed[k].address != allowed[i].address
  }

  lemma {:induction false} FirstOf(allowed: seq<NetworkAddress>, address: Text, at: nat) returns (first: nat)
    requires at < |allowed| && allowed[at].address == address
    ensures first <= at && allowed[first].address == address
    ensures forall k :: 0 <= k < first ==> allowed[k].address != address
  {
    first := at;
    if k :| 0 <= k < at && allowed[k].address == address {
      first := FirstOf(allowed, address, k);
    }
  }

  /** Given that all allowed addresses end up bound, some try was not served exactly if an address was
      served late. */
  lemma UnservedMeansLate(bound: set<Text>, allowed: seq<NetworkAddress>, opens: seq<bool>)
    requires |opens| == |allowed|
    requires Addresses(allowed) <= BoundAfter(bound, allowed, opens)
    ensures !EachServed(bound, allowed, opens) <==> exists i, j :: ServedLate(bound, allowed, opens, i, j)
  {
    EachServedExactly(bound, allowed, opens);
    hide BoundAfter, EachServed;
    if i :| 0 <= i < |allowed| && !ServedAt(bound, allowed, opens, i) {
      var address := allowed[i].address;
      assert address in Addresses(allowed);
      BoundAfterExactly(bound, allowed, opens, address);
      var j :| 0 <= j < |allowed| && allowed[j].address == address && opens[j];
      var first := FirstOf(allowed, address, i);
      assert ServedLate(bound, allowed, opens, first, j);
    }
    if i, j :| ServedLate(bound, allowed, opens, i, j) {
      assert !ServedAt(bound, allowed, opens, i);
    }
  }

  lemma ServedEndsBound(bound: set<Text>, allowed: seq<NetworkAddress>, opens: seq<bool>)
    requires |opens| == |allowed| && EachServed(bound, allowed, opens)
    ensures Addresses(allowed) <= BoundAfter(bound, allowed, opens)
  {
    EachServedExactly(bound, allowed, opens);
    hide BoundAfter, EachServed;
    forall address | address in Addresses(allowed)
      ensures address in BoundAfter(bound, allowed, opens)
    {
      var i :| 0 <= i < |allowed| && allowed[i].address == address;
      assert ServedAt(bound, allowed, opens, i);
      BoundAfterExactly(bound, allowed, opens, address);
    }
  }

  lemma DistinctNeverLate(bound: set<Text>, allowed: seq<NetworkAddress>, opens: seq<bool>)
    requires |opens| == |allowed| && DistinctAddresses(allowed)
    ensures !exists i, j :: ServedLate(bound, allowed, opens, i, j)
  {}

  /** Only which allowed addresses are bound matters. */
  lemma LateAmong(bound: set<Text>, allowed: seq<NetworkAddress>, opens: seq<bool>)
    requires |opens| == |allowed|
    ensures forall i, j :: ServedLate(bound * Addresses(allowed), allowed, opens, i, j) <==>
                           ServedLate(bound, allowed, opens, i, j)
    ensures forall i :: 0 <= i < |allowed| ==>
      (ServedAt(bound * Addresses(allowed), allowed, opens, i) <==> ServedAt(bound, allowed, opens, i))
  {
    hide SucceedsWithin;
    forall i | 0 <= i < |allowed|
      ensures allowed[i].address in Addresses(allowed)
    {
      assert allowed[i] in allowed;
    }
  }

  /** The j-th try is the first of its address that succeeds. */
  ghost predicate FirstSuccess(allowed: seq<NetworkAddress>, opens: seq<bool>, j: nat)
    requires |opens| == |allowed|
    ensures FirstSuccess(allowed, opens, j) ==> j < |allowed|
  {
    && j < |allowed| && opens[j]
    && forall k :: 0 <= k < j ==> !(allowed[k].address == allowed[j].address && opens[k])
  }

  lemma FirstSuccessFrom(allowed: seq<NetworkAddress>, opens: seq<bool>, at: nat) returns (first: nat)
    requires at < |allowed| == |opens| && opens[at]
    ensures FirstSuccess(allowed, opens, first) && allowed[first].address == allowed[at].address
    decreases at
  {
    first := at;
    if k: nat :| k < at && allowed[k].address == allowed[at].address && opens[k] {
      first := FirstSuccessFrom(allowed, opens, k);
    }
  }

  lemma FirstSuccessOf(allowed: seq<NetworkAddress>, opens: seq<bool>, address: Text) returns (first: nat)
    requires |opens| == |allowed| && SucceedsWithin(allowed, opens, address, |allowed|)
    ensures FirstSuccess(allowed, opens, first) && allowed[first].address == address
  {
    var at :| 0 <= at < |allowed| && allowed[at].address == address && opens[at];
    first := FirstSuccessFrom(allowed, opens, at);
  }

  lemma FirstSuccessUnique(allowed: seq<NetworkAddress>, opens: seq<bool>, i: nat, j: nat)
    requires |opens| == |allowed| && FirstSuccess(allowed, opens, i) && FirstSuccess(allowed, opens, j)
    requires allowed[i].address == allowed[j].address
    ensures i == j
  {}

  lemma AllOpenServed(bound: set<Text>, allowed: seq<NetworkAddress>, opens: seq<bool>)
    requires |opens| == |allowed| && forall i :: 0 <= i < |opens| ==> opens[i]
    ensures EachServed(bound, allowed, opens)
  {
    EachServedExactly(bound, allowed, opens);
  }
}
