/** Linear probing for a free identifier (src/remoteControlIdManager.cpp:20-22 and 62-64): which
    identifier it finds, how far it walks, and why the order of insertions does not change which
    identifiers end up occupied. */
module Probing {
  import opened Options
  import opened Sets

  /** The largest 32-bit signed integer: incrementing past it is undefined in the program. */
  const MAX_ID: nat := 0x7FFF_FFFF

  function AtOrAbove(occupied: set<nat>, h: nat): set<nat> {
    set x | x in occupied && h <= x
  }

  /** The first identifier from h on that is neither 0 nor occupied. */
  function Place(occupied: set<nat>, h: nat): (id: nat)
    ensures h <= id && id != 0 && id !in occupied
    ensures forall x: nat :: h <= x < id ==> x == 0 || x in occupied
    decreases AtOrAbove(occupied, h), if h == 0 then 1 else 0
  {
    if h == 0 || h in occupied then
      assert h in occupied ==> h in AtOrAbove(occupied, h) && h !in AtOrAbove(occupied, h + 1);
      assert h !in occupied ==> AtOrAbove(occupied, h) == AtOrAbove(occupied, h + 1);
      Place(occupied, h + 1)
    else h
  }

  /** None where the 32-bit increment would overflow. */
  function Probe(occupied: set<nat>, h: nat): Option<nat> {
    if Place(occupied, h) <= MAX_ID then Some(Place(occupied, h)) else None
  }

  /** The probing loop. It either finds the first free identifier or runs into the largest integer. */
  method Search(occupied: set<nat>, h: nat) returns (r: Option<nat>, increments: nat)
    requires h <= MAX_ID
    ensures r == Probe(occupied, h)
    ensures r.Some? ==> increments == r.value - h
    ensures increments <= |occupied| + 1
  {
    var id := h;
    while id == 0 || id in occupied
      invariant h <= id <= MAX_ID
      invariant forall x: nat :: h <= x < id ==> x == 0 || x in occupied
      decreases MAX_ID - id
    {
      if id == MAX_ID {
        PlaceIsFirst(occupied, h, id);
        WalkBound(occupied, h, id);
        return None, id - h;
      }
      id := id + 1;
    }
    PlaceIsFirst(occupied, h, id);
    WalkBound(occupied, h, id);
    return Some(id), id - h;
  }

  /** Place is the first free identifier, so nothing below it is free. */
  lemma PlaceIsFirst(occupied: set<nat>, h: nat, id: nat)
    requires h <= id
    requires forall x: nat :: h <= x < id ==> x == 0 || x in occupied
    ensures id <= Place(occupied, h)
    ensures id != 0 && id !in occupied ==> Place(occupied, h) == id
  {}

  function Range(a: nat, b: nat): (s: set<nat>)
    requires a <= b
    ensures forall x :: x in s <==> a <= x < b
    ensures |s| == b - a
    decreases b - a
  {
    if a == b then {} else Range(a, b - 1) + {b - 1}
  }

  /** A walk over taken identifiers is at most one longer than their number: 0 is skipped too. */
  lemma WalkBound(occupied: set<nat>, h: nat, id: nat)
    requires h <= id
    requires forall x: nat :: h <= x < id ==> x == 0 || x in occupied
    ensures id - h <= |occupied| + 1
  {
    SubsetSize(Range(h, id), occupied + {0});
    assert |occupied + {0}| <= |occupied| + 1;
  }

  /** No overflow, and an identifier in 1..2^31-1, whenever hash + occupied + 1 fits. */
  lemma ProbeSucceeds(occupied: set<nat>, h: nat)
    requires h + |occupied| + 1 <= 0x7FFF_FFFF
    ensures Probe(occupied, h).Some? && 1 <= Probe(occupied, h).value <= 0x7FFF_FFFF
  {
    WalkBound(occupied, h, Place(occupied, h));
  }

  /** It overflows exactly if every identifier from the hash to 2^31-1 is taken. */
  lemma ProbeFailsExactly(occupied: set<nat>, h: nat)
    ensures Probe(occupied, h).None? <==> forall x: nat :: h <= x <= 0x7FFF_FFFF ==> x == 0 || x in occupied
  {
    if forall x: nat :: h <= x <= 0x7FFF_FFFF ==> x == 0 || x in occupied {
      assert Place(occupied, h) > 0x7FFF_FFFF;
    } else {
      var x: nat :| h <= x <= 0x7FFF_FFFF && x != 0 && x !in occupied;
      assert Place(occupied, h) <= x;
    }
  }

  // ---------------------------------------------------------------- order of insertions

  /** Which identifiers are taken and which keys have been served. */
  datatype Occupancy<!K> = Occupancy(ids: set<nat>, keys: set<K>)

  function Request<K>(s: Occupancy<K>, hash: K -> nat, k: K): Occupancy<K> {
    if k in s.keys then s else Occupancy(s.ids + {Place(s.ids, hash(k))}, s.keys + {k})
  }

  function RequestAll<K>(s: Occupancy<K>, hash: K -> nat, ks: seq<K>): Occupancy<K>
    decreases |ks|
  {
    if ks == [] then s else RequestAll(Request(s, hash, ks[0]), hash, ks[1..])
  }

  /** Two probes take the same two identifiers whichever goes first. */
  lemma PlacesCommute(occupied: set<nat>, a: nat, b: nat)
    ensures var p, q := Place(occupied, a), Place(occupied, b);
      {p, Place(occupied + {p}, b)} == {q, Place(occupied + {q}, a)}
  {
    var p, q := Place(occupied, a), Place(occupied, b);
    if p != q {
      PlaceIsFirst(occupied + {p}, b, q);
      PlaceIsFirst(occupied + {q}, a, p);
    } else {
      var next := Place(occupied + {p}, b);
      PlaceIsFirst(occupied + {p}, a, next);
    }
  }

  lemma RequestsCommute<K>(s: Occupancy<K>, hash: K -> nat, a: K, b: K)
    ensures Request(Request(s, hash, a), hash, b) == Request(Request(s, hash, b), hash, a)
  {
    if a !in s.keys && b !in s.keys && a != b {
      PlacesCommute(s.ids, hash(a), hash(b));
      var p, q := Place(s.ids, hash(a)), Place(s.ids, hash(b));
      assert s.ids + {p} + {Place(s.ids + {p}, hash(b))} == s.ids + {p, Place(s.ids + {p}, hash(b))};
      assert s.ids + {q} + {Place(s.ids + {q}, hash(a))} == s.ids + {q, Place(s.ids + {q}, hash(a))};
      assert s.keys + {a} + {b} == s.keys + {b} + {a};
    }
  }

  lemma {:induction false} RequestMovesLast<K>(s: Occupancy<K>, hash: K -> nat, a: K, ks: seq<K>)
    ensures RequestAll(Request(s, hash, a), hash, ks) == Request(RequestAll(s, hash, ks), hash, a)
    decreases |ks|
  {
    if ks != [] {
      RequestsCommute(s, hash, a, ks[0]);
      RequestMovesLast(Request(s, hash, ks[0]), hash, a, ks[1..]);
    }
  }

  lemma {:induction false} RequestedKeys<K>(s: Occupancy<K>, hash: K -> nat, ks: seq<K>)
    ensures RequestAll(s, hash, ks).keys == s.keys + (set k | k in ks)
    ensures s.ids <= RequestAll(s, hash, ks).ids
    decreases |ks|
  {
    if ks != [] {
      RequestedKeys(Request(s, hash, ks[0]), hash, ks[1..]);
      assert ks == [ks[0]] + ks[1..];
    }
  }

  /** Requests that will be made anyway can be made beforehand. */
  lemma {:induction false} RequestsAbsorbed<K>(s: Occupancy<K>, hash: K -> nat, early: seq<K>, ks: seq<K>)
    requires forall k :: k in early ==> k in ks
    ensures RequestAll(RequestAll(s, hash, early), hash, ks) == RequestAll(s, hash, ks)
    decreases |early|
  {
    if early != [] {
      RequestsAbsorbed(Request(s, hash, early[0]), hash, early[1..], ks);
      RequestMovesLast(s, hash, early[0], ks);
      RequestedKeys(s, hash, ks);
      assert early[0] in ks;
    }
  }

  lemma {:induction false} RequestAllCommute<K>(s: Occupancy<K>, hash: K -> nat, ks: seq<K>, ls: seq<K>)
    ensures RequestAll(RequestAll(s, hash, ks), hash, ls) == RequestAll(RequestAll(s, hash, ls), hash, ks)
    decreases |ks|
  {
    if ks != [] {
      RequestAllCommute(Request(s, hash, ks[0]), hash, ks[1..], ls);
      RequestMovesLast(s, hash, ks[0], ls);
    }
  }

  /** Whatever the order and the repetitions, requests for the same keys occupy the same identifiers. */
  lemma OccupancyOrderIndependent<K>(s: Occupancy<K>, hash: K -> nat, ks: seq<K>, ls: seq<K>)
    requires forall k :: k in ks <==> k in ls
    ensures RequestAll(s, hash, ks) == RequestAll(s, hash, ls)
  {
    RequestsAbsorbed(s, hash, ls, ks);
    RequestsAbsorbed(s, hash, ks, ls);
    RequestAllCommute(s, hash, ks, ls);
  }
}
