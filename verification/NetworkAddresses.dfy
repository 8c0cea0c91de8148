/** The addresses of the machine (src/helpers/networkInterfaces.h:6-12). */
module NetworkAddresses {
  import opened Texts

  datatype NetworkAddress = NetworkAddress(interfaceId: Text, interfaceName: Text, address: Text, isLoopback: bool)

  function Addresses(list: seq<NetworkAddress>): set<Text> {
    set a | a in list :: a.address
  }

  ghost predicate DistinctAddresses(list: seq<NetworkAddress>) {
    forall i, j :: 0 <= i < j < |list| ==> list[i].address != list[j].address
  }

  lemma AddressesPrepend(a: NetworkAddress, list: seq<NetworkAddress>)
    ensures Addresses([a] + list) == {a.address} + Addresses(list)
  {
    assert forall b :: b in [a] + list <==> b == a || b in list;
    assert a in [a] + list;
  }

  lemma DistinctTail(allowed: seq<NetworkAddress>)
    requires allowed != [] && DistinctAddresses(allowed)
    ensures DistinctAddresses(allowed[1..]) && allowed[0].address !in Addresses(allowed[1..])
  {
    forall b | b in allowed[1..]
      ensures b.address != allowed[0].address
    {
      var j :| 0 <= j < |allowed[1..]| && allowed[1..][j] == b;
      assert allowed[j + 1] == b;
    }
  }
}
