/** The five tables of RemoteControlIdManager as one value, their agreement, and the operations on
    them (src/remoteControlIdManager.h:45-50, src/remoteControlIdManager.cpp). */
module IdTables {
  import opened Options
  import opened Probing
  import opened Texts
  import Crc32

  // ---------------------------------------------------------------- one two-way table

  /** Identifiers by key and keys by identifier. */
  datatype Registry<!K> = Registry(byKey: map<K, nat>, byId: map<nat, K>) {

    /** The two maps are inverse and identifiers are nonzero 31-bit numbers. */
    ghost predicate Valid() {
      && (forall k :: k in byKey ==> byKey[k] in byId && byId[byKey[k]] == k)
      && (forall i :: i in byId ==> byId[i] in byKey && byKey[byId[i]] == i)
      && (forall i :: i in byId ==> 1 <= i <= MAX_ID)
    }

    function Put(k: K, id: nat): Registry<K> {
      Registry(byKey[k := id], byId[id := k])
    }

    /** The table with some identifiers and their keys forgotten. */
    function Without(ids: set<nat>): Registry<K> {
      Registry(map k | k in byKey && byKey[k] !in ids :: byKey[k],
               map i | i in byId && i !in ids :: byId[i])
    }

    function WithoutKey(k: K): Registry<K> {
      Registry(byKey - {k}, map i | i in byId && byId[i] != k :: byId[i])
    }

    /** The identifier a request for k is answered with; None where probing overflows. */
    function Answer(h: nat, k: K): Option<nat> {
      if k in byKey then Some(byKey[k]) else Probe(byId.Keys, h)
    }

    /** The table after a request for k. */
    function AfterRequest(h: nat, k: K): Registry<K> {
      var id := Answer(h, k);
      if k in byKey || id.None? then this else Put(k, id.value)
    }
  }

  /** A request serves its key, gives no key an identifier of another, and changes nothing else. */
  lemma RequestServes<K>(r: Registry<K>, h: nat, k: K)
    requires r.Valid()
    ensures r.AfterRequest(h, k).Valid()
    ensures r.Answer(h, k).Some? ==>
      var id, r' := r.Answer(h, k).value, r.AfterRequest(h, k);
      && 1 <= id <= MAX_ID
      && k in r'.byKey && r'.byKey[k] == id && id in r'.byId && r'.byId[id] == k
      && (forall l :: l in r'.byKey && l != k <==> l in r.byKey && l != k)
      && (forall l :: l in r.byKey ==> r'.byKey[l] == r.byKey[l])
    ensures r.Answer(h, k).None? ==> r.AfterRequest(h, k) == r
  {
    if k !in r.byKey && r.Answer(h, k).Some? {
      var id := r.Answer(h, k).value;
      assert id !in r.byId;
    }
  }

  lemma WithoutNone<K>(r: Registry<K>)
    ensures r.Without({}) == r
  {
    assert r.Without({}).byKey == r.byKey && r.Without({}).byId == r.byId;
  }

  /** Erasing one more identifier from both maps. */
  lemma WithoutOneMore<K>(r: Registry<K>, ids: set<nat>, id: nat)
    requires r.Valid() && id !in ids
    ensures var s, t := r.Without(ids), r.Without(ids + {id});
      && (id in s.byId <==> id in r.byId)
      && (id in s.byId ==> t == Registry(s.byKey - {s.byId[id]}, s.byId - {id}))
      && (id !in s.byId ==> t == s)
  {
    var s, t := r.Without(ids), r.Without(ids + {id});
    if id in s.byId {
      assert t.byKey == s.byKey - {s.byId[id]};
      assert t.byId == s.byId - {id};
    } else {
      assert t.byKey == s.byKey;
      assert t.byId == s.byId;
    }
  }

  // ---------------------------------------------------------------- histories of requests

  /** The table after a sequence of requests; None once one of them overflows. */
  function ServeAll<K>(r: Registry<K>, hash: K -> nat, ks: seq<K>): Option<Registry<K>>
    decreases |ks|
  {
    if ks == [] then Some(r)
    else if r.Answer(hash(ks[0]), ks[0]).None? then None
    else ServeAll(r.AfterRequest(hash(ks[0]), ks[0]), hash, ks[1..])
  }

  function OccupancyOf<K>(r: Registry<K>): Occupancy<K> {
    Occupancy(r.byId.Keys, r.byKey.Keys)
  }

  ghost predicate Fits(ids: set<nat>) {
    forall i :: i in ids ==> i <= MAX_ID
  }

  lemma ServedOccupancy<K>(r: Registry<K>, h: nat, k: K)
    requires r.Valid() && r.Answer(h, k).Some?
    ensures OccupancyOf(r.AfterRequest(h, k)) == Request(OccupancyOf(r), _ => h, k)
  {
    if k !in r.byKey {
      var id := r.Answer(h, k).value;
      assert r.Put(k, id).byId.Keys == r.byId.Keys + {id};
      assert r.Put(k, id).byKey.Keys == r.byKey.Keys + {k};
    }
  }

  /** Serving succeeds exactly when unbounded probing would stay within the 31-bit range, and then
      occupies what unbounded probing occupies. */
  lemma {:induction false} ServeAllOccupies<K>(r: Registry<K>, hash: K -> nat, ks: seq<K>)
    requires r.Valid()
    ensures var all, end := ServeAll(r, hash, ks), RequestAll(OccupancyOf(r), hash, ks);
      && (all.Some? <==> Fits(end.ids))
      && (all.Some? ==> all.value.Valid() && OccupancyOf(all.value) == end)
    decreases |ks|
  {
    if ks != [] {
      var k := ks[0];
      RequestedKeys(Request(OccupancyOf(r), hash, k), hash, ks[1..]);
      if r.Answer(hash(k), k).Some? {
        RequestServes(r, hash(k), k);
        ServedOccupancy(r, hash(k), k);
        ServeAllOccupies(r.AfterRequest(hash(k), k), hash, ks[1..]);
      } else {
        assert Place(r.byId.Keys, hash(k)) in Request(OccupancyOf(r), hash, k).ids;
      }
    }
  }

  /** Clients asking for the same keys in any order, with any repetitions, leave the same identifiers
      occupied, and overflow in one order is overflow in every order. */
  lemma ServeAllOrderIndependent<K>(r: Registry<K>, hash: K -> nat, ks: seq<K>, ls: seq<K>)
    requires r.Valid()
    requires forall k :: k in ks <==> k in ls
    ensures var a, b := ServeAll(r, hash, ks), ServeAll(r, hash, ls);
      && (a.Some? <==> b.Some?)
      && (a.Some? ==> a.value.byId.Keys == b.value.byId.Keys && a.value.byKey.Keys == b.value.byKey.Keys)
  {
    ServeAllOccupies(r, hash, ks);
    ServeAllOccupies(r, hash, ls);
    OccupancyOrderIndependent(OccupancyOf(r), hash, ks, ls);
  }

  // ---------------------------------------------------------------- stability across restarts

  /** Where probing starts in earnest: 0 is never given out. */
  function Home(h: nat): nat {
    if h == 0 then 1 else h
  }

  ghost predicate HomesDistinct<K(!new)>(hash: K -> nat, keys: set<K>) {
    forall a, b :: a in keys && b in keys && a != b ==> Home(hash(a)) != Home(hash(b))
  }

  function Fresh<K>(): Registry<K> { Registry(map[], map[]) }

  ghost predicate AtHome<K>(r: Registry<K>, hash: K -> nat) {
    forall k :: k in r.byKey ==> r.byKey[k] == Home(hash(k))
  }

  /** A request while all keys served are at home, and homes are distinct, is served at home. */
  lemma HomeServed<K(!new)>(r: Registry<K>, hash: K -> nat, k: K, keys: set<K>)
    requires r.Valid() && AtHome(r, hash) && r.byKey.Keys <= keys && k in keys
    requires HomesDistinct(hash, keys) && hash(k) <= MAX_ID
    ensures r.Answer(hash(k), k).Some?
    ensures var r' := r.AfterRequest(hash(k), k);
      r'.Valid() && AtHome(r', hash) && r'.byKey.Keys == r.byKey.Keys + {k}
  {
    if k !in r.byKey {
      assert Home(hash(k)) !in r.byId;
      PlaceIsFirst(r.byId.Keys, hash(k), Home(hash(k)));
    }
    RequestServes(r, hash(k), k);
  }

  lemma {:induction false} DistinctHomesServed<K(!new)>(r: Registry<K>, hash: K -> nat, ks: seq<K>, keys: set<K>)
    requires r.Valid() && AtHome(r, hash) && r.byKey.Keys <= keys
    requires forall k :: k in ks ==> k in keys
    requires HomesDistinct(hash, keys)
    requires forall k :: k in keys ==> hash(k) <= MAX_ID
    ensures var all := ServeAll(r, hash, ks);
      all.Some? && AtHome(all.value, hash) && all.value.byKey.Keys == r.byKey.Keys + (set k | k in ks)
    decreases |ks|
  {
    hide AtHome, HomesDistinct, Home, Registry.Valid, Registry.Answer, Registry.AfterRequest;
    if ks != [] {
      var k := ks[0];
      assert k in ks && ks == [k] + ks[1..];
      HomeServed(r, hash, k, keys);
      DistinctHomesServed(r.AfterRequest(hash(k), k), hash, ks[1..], keys);
    }
  }

  ghost predicate Covers<K(!new)>(ks: seq<K>, keys: set<K>) {
    forall k :: k in ks <==> k in keys
  }

  /** After a restart, requests for the same keys in two orders give every key the same identifier. */
  ghost predicate Agree<K(!new)>(hash: K -> nat, ks: seq<K>, ls: seq<K>) {
    var a, b := ServeAll(Fresh(), hash, ks), ServeAll(Fresh(), hash, ls);
    a.Some? && b.Some? && a.value.byKey == b.value.byKey
  }

  lemma {:induction false} Enumerate<K(!new)>(keys: set<K>) returns (ks: seq<K>)
    ensures Covers(ks, keys)
    decreases keys
  {
    if keys == {} {
      ks := [];
    } else {
      var k :| k in keys;
      var rest := Enumerate(keys - {k});
      ks := [k] + rest;
    }
  }

  lemma {:induction false} ServeAllKeeps<K>(r: Registry<K>, hash: K -> nat, ks: seq<K>)
    requires r.Valid()
    ensures ServeAll(r, hash, ks).Some? ==>
      var r' := ServeAll(r, hash, ks).value;
      r'.Valid() && forall k :: k in r.byKey ==> k in r'.byKey && r'.byKey[k] == r.byKey[k]
    decreases |ks|
  {
    if ks != [] && r.Answer(hash(ks[0]), ks[0]).Some? {
      RequestServes(r, hash(ks[0]), ks[0]);
      ServeAllKeeps(r.AfterRequest(hash(ks[0]), ks[0]), hash, ks[1..]);
    }
  }

  /** The first key to be served goes to its home. */
  lemma FirstAtHome<K>(hash: K -> nat, ks: seq<K>)
    requires ks != [] && ServeAll(Fresh(), hash, ks).Some?
    ensures var r := ServeAll(Fresh(), hash, ks).value;
      r.Valid() && ks[0] in r.byKey && r.byKey[ks[0]] == Home(hash(ks[0]))
  {
    var r: Registry<K> := Fresh();
    var k := ks[0];
    PlaceIsFirst({}, hash(k), Home(hash(k)));
    assert r.byId.Keys == {};
    RequestServes(r, hash(k), k);
    ServeAllKeeps(r.AfterRequest(hash(k), k), hash, ks[1..]);
  }

  /** Identifiers survive restarts, whatever the order of requests, exactly when no two keys have the
      same home; then each key gets its home. The protocol description promises stability outright. */
  lemma StableAcrossRestarts<K(!new)>(hash: K -> nat, keys: set<K>)
    requires forall k :: k in keys ==> hash(k) <= MAX_ID
    ensures HomesDistinct(hash, keys) <==>
      forall ks, ls :: Covers(ks, keys) && Covers(ls, keys) ==> Agree(hash, ks, ls)
    ensures HomesDistinct(hash, keys) ==> forall ks :: Covers(ks, keys) ==>
      var all := ServeAll(Fresh(), hash, ks);
      all.Some? && all.value.byKey.Keys == keys && AtHome(all.value, hash)
  {
    if HomesDistinct(hash, keys) {
      forall ks: seq<K> | Covers(ks, keys)
        ensures ServeAll(Fresh(), hash, ks).Some?
        ensures ServeAll(Fresh(), hash, ks).value.byKey.Keys == keys && AtHome(ServeAll(Fresh(), hash, ks).value, hash)
      {
        DistinctHomesServed(Fresh(), hash, ks, keys);
      }
    } else {
      var a, b :| a in keys && b in keys && a != b && Home(hash(a)) == Home(hash(b));
      var rest := Enumerate(keys);
      var ks, ls := [a, b] + rest, [b, a] + rest;
      assert Covers(ks, keys) && Covers(ls, keys);
      if Agree(hash, ks, ls) {
        FirstAtHome(hash, ks);
        FirstAtHome(hash, ls);
        assert false;
      }
    }
  }

  // ---------------------------------------------------------------- which keys are stable

  lemma {:induction false} ServeAllConcat<K>(r: Registry<K>, hash: K -> nat, a: seq<K>, b: seq<K>)
    ensures ServeAll(r, hash, a + b) ==
      if ServeAll(r, hash, a).None? then None else ServeAll(ServeAll(r, hash, a).value, hash, b)
    decreases |a|
  {
    hide Registry.Answer, Registry.AfterRequest;
    if a == [] {
      assert a + b == b;
    } else {
      assert (a + b)[1..] == a[1..] + b && (a + b)[0] == a[0];
      if r.Answer(hash(a[0]), a[0]).Some? {
        ServeAllConcat(r.AfterRequest(hash(a[0]), a[0]), hash, a[1..], b);
      }
    }
  }

  /** The identifiers unbounded probing takes for these keys on an empty table, in whatever order. */
  ghost function Taken<K>(hash: K -> nat, ks: seq<K>): set<nat> {
    RequestAll(Occupancy({}, {}), hash, ks).ids
  }

  lemma ServedFromFresh<K>(hash: K -> nat, ks: seq<K>)
    ensures var all := ServeAll(Fresh(), hash, ks);
      && (all.Some? <==> Fits(Taken(hash, ks)))
      && (all.Some? ==> all.value.Valid() && all.value.byId.Keys == Taken(hash, ks) &&
                        all.value.byKey.Keys == set k | k in ks)
  {
    var r: Registry<K> := Fresh();
    assert OccupancyOf(r) == Occupancy({}, {});
    ServeAllOccupies(r, hash, ks);
    RequestedKeys(OccupancyOf(r), hash, ks);
    hide ServeAll, RequestAll, Fits;
    assert {} + (set k | k in ks) == set k | k in ks;
  }

  /** A key gets the first free identifier after those of the keys asked for earlier. */
  lemma PlacedAfter<K>(hash: K -> nat, early: seq<K>, k: K, rest: seq<K>)
    requires k !in early && ServeAll(Fresh(), hash, early + [k] + rest).Some?
    ensures var r := ServeAll(Fresh(), hash, early + [k] + rest).value;
      k in r.byKey && r.byKey[k] == Place(Taken(hash, early), hash(k))
  {
    hide Taken, Fits;
    assert early + [k] + rest == early + ([k] + rest);
    ServeAllConcat(Fresh(), hash, early, [k] + rest);
    ServedFromFresh(hash, early);
    var r := ServeAll(Fresh(), hash, early).value;
    assert ([k] + rest)[0] == k && ([k] + rest)[1..] == rest;
    assert k !in r.byKey;
    RequestServes(r, hash(k), k);
    ServeAllKeeps(r.AfterRequest(hash(k), k), hash, rest);
  }

  /** What early requests take is taken by any later requests that include theirs. */
  lemma EarlyTaken<K>(hash: K -> nat, early: seq<K>, others: seq<K>)
    requires forall k :: k in early ==> k in others
    ensures Taken(hash, early) <= Taken(hash, others)
  {
    var none: Occupancy<K> := Occupancy({}, {});
    RequestsAbsorbed(none, hash, early, others);
    RequestedKeys(RequestAll(none, hash, early), hash, others);
  }

  lemma SplitAtFirst<K>(ks: seq<K>, k: K) returns (early: seq<K>, rest: seq<K>)
    requires k in ks
    ensures ks == early + [k] + rest && k !in early
    decreases |ks|
  {
    if ks[0] == k {
      early, rest := [], ks[1..];
    } else {
      early, rest := SplitAtFirst(ks[1..], k);
      early := [ks[0]] + early;
    }
  }

  /** After a restart, requests for the keys in this order give the key its home. */
  ghost predicate GetsHome<K(!new)>(hash: K -> nat, ks: seq<K>, k: K) {
    var all := ServeAll(Fresh(), hash, ks);
    all.Some? && k in all.value.byKey && all.value.byKey[k] == Home(hash(k))
  }

  lemma HomeWhenFree<K(!new)>(hash: K -> nat, keys: set<K>, k: K, others: seq<K>, ks: seq<K>)
    requires k in keys && Covers(others, keys - {k}) && Covers(ks, keys)
    requires Fits(Taken(hash, others + [k])) && Home(hash(k)) !in Taken(hash, others)
    ensures GetsHome(hash, ks, k)
  {
    var early, rest := SplitAtFirst(ks, k);
    OccupancyOrderIndependent(Occupancy({}, {}), hash, ks, others + [k]);
    ServedFromFresh(hash, ks);
    EarlyTaken(hash, early, others);
    PlaceIsFirst(Taken(hash, early), hash(k), Home(hash(k)));
    hide Taken, Fits, ServeAll, Place;
    PlacedAfter(hash, early, k, rest);
  }

  /** After a restart, requests for the keys in these two orders give the key the same identifier. */
  ghost predicate AgreeOn<K(!new)>(hash: K -> nat, ks: seq<K>, ls: seq<K>, k: K) {
    var a, b := ServeAll(Fresh(), hash, ks), ServeAll(Fresh(), hash, ls);
    a.Some? && b.Some? && k in a.value.byKey && k in b.value.byKey && a.value.byKey[k] == b.value.byKey[k]
  }

  /** One key's identifier survives restarts, whatever the order of requests, exactly when the requests fit
      into 31 bits and the other keys alone do not take its home; then its identifier is its home. */
  lemma KeyStableExactlyIf<K(!new)>(hash: K -> nat, keys: set<K>, k: K, others: seq<K>)
    requires k in keys && Covers(others, keys - {k})
    ensures (forall ks, ls :: Covers(ks, keys) && Covers(ls, keys) ==> AgreeOn(hash, ks, ls, k)) <==>
      Fits(Taken(hash, others + [k])) && Home(hash(k)) !in Taken(hash, others)
    ensures Fits(Taken(hash, others + [k])) && Home(hash(k)) !in Taken(hash, others) ==>
      forall ks :: Covers(ks, keys) ==> GetsHome(hash, ks, k)
  {
    hide Taken, Fits, ServeAll, Home;
    if Fits(Taken(hash, others + [k])) && Home(hash(k)) !in Taken(hash, others) {
      forall ks | Covers(ks, keys)
        ensures GetsHome(hash, ks, k)
      {
        HomeWhenFree(hash, keys, k, others, ks);
      }
    } else {
      var ks, ls := others + [k], [k] + others;
      assert Covers(ks, keys) && Covers(ls, keys);
      NotHomeWhenTaken(hash, k, others);
      if AgreeOn(hash, ks, ls, k) {
        FirstAtHome(hash, ls);
        assert false;
      }
    }
  }

  lemma NotHomeWhenTaken<K(!new)>(hash: K -> nat, k: K, others: seq<K>)
    requires k !in others
    requires !Fits(Taken(hash, others + [k])) || Home(hash(k)) in Taken(hash, others)
    ensures !GetsHome(hash, others + [k], k)
  {
    hide Taken, Fits, ServeAll;
    ServedFromFresh(hash, others + [k]);
    if ServeAll(Fresh(), hash, others + [k]).Some? {
      assert others + [k] + [] == others + [k];
      PlacedAfter(hash, others, k, []);
    }
  }

  // ---------------------------------------------------------------- the five tables

  datatype ItemKey = ItemKey(playlist: Text, index: int)

  function BytesOf(s: Text): (b: seq<bv8>)
    ensures |b| == |s|
  {
    if s == [] then [] else [s[0] as int as bv8] + BytesOf(s[1..])
  }

  function ClearTopBit(x: bv32): (h: nat)
    ensures h <= MAX_ID
  {
    (x & 0x7FFF_FFFF) as bv31 as int
  }

  /** Where probing starts: the checksum with the top bit cleared. */
  function HashOf(s: Text): (h: nat)
    ensures h <= MAX_ID
  {
    ClearTopBit(Crc32.Crc(0, BytesOf(s)))
  }

  lemma RoundNumber(y: bv31)
    ensures (y as int) as bv31 == y
  {}

  lemma TopBitOnly(x: bv32, y: bv32)
    ensures ((x & 0x7FFF_FFFF) as bv31 == (y & 0x7FFF_FFFF) as bv31) <==> x << 1 == y << 1
    ensures ((x << 1) >> 1) as bv31 == (x & 0x7FFF_FFFF) as bv31
  {}

  /** Of a checksum exactly the top bit is lost. */
  lemma ClearTopBitExactly(x: bv32, y: bv32)
    ensures ClearTopBit(x) == ((x << 1) >> 1) as bv31 as int
    ensures ClearTopBit(x) == ClearTopBit(y) <==> x << 1 == y << 1
  {
    TopBitOnly(x, y);
    RoundNumber((x & 0x7FFF_FFFF) as bv31);
    RoundNumber((y & 0x7FFF_FFFF) as bv31);
  }

  predicate AgreeBelowTop(x: bv32, y: bv32) {
    x << 1 == y << 1
  }

  lemma ClearedAlike(x: bv32, y: bv32)
    ensures ClearTopBit(x) == ClearTopBit(y) <==> AgreeBelowTop(x, y)
  {
    ClearTopBitExactly(x, y);
  }

  /** Two keys start probing at the same place exactly if the checksums of their texts agree in the low 31 bits. */
  lemma StartsAlikeExactly(a: Text, b: Text)
    ensures HashOf(a) == HashOf(b) <==> AgreeBelowTop(Crc32.Crc(0, BytesOf(a)), Crc32.Crc(0, BytesOf(b)))
  {
    hide Crc32.Crc, BytesOf, ClearTopBit, AgreeBelowTop;
    ClearedAlike(Crc32.Crc(0, BytesOf(a)), Crc32.Crc(0, BytesOf(b)));
  }

  /** What a track's identifier is derived from. */
  function Seed(key: ItemKey): Text {
    key.playlist + [':'] + Decimal(key.index)
  }

  function ItemHash(key: ItemKey): nat {
    HashOf(Seed(key))
  }

  datatype Tables = Tables(playlists: Registry<Text>, items: Registry<ItemKey>, groups: map<Text, set<nat>>) {

    ghost predicate Valid() {
      && playlists.Valid()
      && items.Valid()
      && GroupsPartition()
    }

    /** The groups are exactly the live item identifiers by owning playlist, and none is empty. */
    ghost predicate GroupsPartition() {
      && (forall p :: p in groups ==> groups[p] != {})
      && (forall p, i :: p in groups && i in groups[p] ==> i in items.byId && items.byId[i].playlist == p)
      && (forall i :: i in items.byId ==> items.byId[i].playlist in groups && i in groups[items.byId[i].playlist])
    }

    function RequestPlaylist(p: Text): Tables {
      this.(playlists := playlists.AfterRequest(HashOf(p), p))
    }

    function Group(p: Text): set<nat> {
      if p in groups then groups[p] else {}
    }

    function RequestItem(key: ItemKey): Tables {
      var id := items.Answer(ItemHash(key), key);
      if key in items.byKey || id.None? then this
      else Tables(playlists, items.Put(key, id.value), groups[key.playlist := Group(key.playlist) + {id.value}])
    }

    /** The tables without the items in one playlist's group. */
    function WithoutItems(p: Text): Tables {
      Tables(playlists, items.Without(Group(p)), groups - {p})
    }

    /** Everything but one playlist's own entry. */
    function WithoutPlaylist(p: Text): Tables {
      this.(playlists := playlists.WithoutKey(p))
    }
  }

  lemma {:induction false} ColonFreeEnd(a: Text, x: Text, b: Text, y: Text)
    requires a + [':'] + x == b + [':'] + y && ':' !in x && ':' !in y
    ensures a == b && x == y
  {
    var s, t := a + [':'] + x, b + [':'] + y;
    assert s[|a|] == ':' && t[|b|] == ':';
    assert forall i :: |a| < i < |s| ==> s[i] == x[i - |a| - 1];
    assert forall i :: |b| < i < |t| ==> t[i] == y[i - |b| - 1];
    assert |a| == |b|;
    assert a == s[..|a|] && b == t[..|b|] && x == s[|a| + 1..] && y == t[|b| + 1..];
  }

  /** Different tracks have different seeds, so only the checksum can make them collide. */
  lemma SeedsDistinct(k: ItemKey, l: ItemKey)
    requires Seed(k) == Seed(l)
    ensures k == l
  {
    var x, y := Decimal(k.index), Decimal(l.index);
    assert ':' !in x && ':' !in y;
    ColonFreeEnd(k.playlist, x, l.playlist, y);
    DecimalInjective(k.index, l.index);
  }

  const EMPTY := Tables(Registry(map[], map[]), Registry(map[], map[]), map[])

  lemma EmptyValid()
    ensures EMPTY.Valid()
  {}

  lemma RequestPlaylistValid(t: Tables, p: Text)
    requires t.Valid()
    ensures t.RequestPlaylist(p).Valid()
    ensures var id := t.playlists.Answer(HashOf(p), p);
      id.Some? ==> id.value in t.RequestPlaylist(p).playlists.byId && t.RequestPlaylist(p).playlists.byId[id.value] == p
  {
    RequestServes(t.playlists, HashOf(p), p);
  }

  lemma RequestItemValid(t: Tables, key: ItemKey)
    requires t.Valid()
    ensures t.RequestItem(key).Valid()
    ensures t.RequestItem(key).items == t.items.AfterRequest(ItemHash(key), key)
    ensures var id := t.items.Answer(ItemHash(key), key);
      id.Some? ==> id.value in t.RequestItem(key).items.byId && t.RequestItem(key).items.byId[id.value] == key
  {
    RequestServes(t.items, ItemHash(key), key);
    var t' := t.RequestItem(key);
    if t' != t {
      forall p, i | p in t'.groups && i in t'.groups[p]
        ensures i in t'.items.byId && t'.items.byId[i].playlist == p
      {
        assert i in t.Group(p) || (p == key.playlist && i == t.items.Answer(ItemHash(key), key).value);
      }
    }
  }

  /** Removing a playlist's items forgets exactly the keys of that playlist and leaves every other
      mapping alone. */
  lemma WithoutItemsValid(t: Tables, p: Text)
    requires t.Valid()
    ensures t.WithoutItems(p).Valid()
    ensures var t' := t.WithoutItems(p);
      && t'.playlists == t.playlists
      && (forall k :: k in t'.items.byKey <==> k in t.items.byKey && k.playlist != p)
      && (forall k :: k in t'.items.byKey ==> t'.items.byKey[k] == t.items.byKey[k])
      && (forall i :: i in t'.items.byId <==> i in t.items.byId && t.items.byId[i].playlist != p)
    ensures p !in t.groups ==> t.WithoutItems(p) == t
  {
    if p !in t.groups {
      WithoutNone(t.items);
      assert t.groups - {p} == t.groups;
    }
  }

  lemma GroupsSame(t: Tables, t': Tables)
    requires t.GroupsPartition() && t'.items == t.items && t'.groups == t.groups
    ensures t'.GroupsPartition()
  {}

  lemma WithoutKeyValid<K>(r: Registry<K>, k: K)
    requires r.Valid()
    ensures r.WithoutKey(k).Valid()
    ensures k in r.byKey ==> r.WithoutKey(k).byId == r.byId - {r.byKey[k]}
    ensures k !in r.byKey ==> r.WithoutKey(k) == r
  {
    var r' := r.WithoutKey(k);
    assert forall i :: i in r'.byId <==> i in r.byId && r.byId[i] != k;
    if k in r.byKey {
      assert r'.byId == r.byId - {r.byKey[k]};
    } else {
      assert r'.byId == r.byId && r'.byKey == r.byKey;
    }
  }

  /** Removing a playlist's own entry forgets exactly it. */
  lemma WithoutPlaylistValid(t: Tables, p: Text)
    requires t.Valid()
    ensures t.WithoutPlaylist(p).Valid()
    ensures var t' := t.WithoutPlaylist(p);
      && t'.playlists.byKey.Keys == t.playlists.byKey.Keys - {p}
      && (forall q :: q in t'.playlists.byKey ==> t'.playlists.byKey[q] == t.playlists.byKey[q])
      && (p in t.playlists.byKey ==> t'.playlists.byId == t.playlists.byId - {t.playlists.byKey[p]})
      && (p !in t.playlists.byKey ==> t' == t)
  {
    hide Tables.GroupsPartition;
    var t' := t.WithoutPlaylist(p);
    WithoutKeyValid(t.playlists, p);
    assert t'.GroupsPartition() by {
      GroupsSame(t, t');
    }
  }
}
