/** The network part of the options page: one check box per interface, and the loop that edits the
    excluded list when the page is saved (src/optionsFrame.cpp:278-316, 398-401 and 433-442). */
module OptionsPage {
  import opened NetworkAddresses
  import opened Texts
  import ExclusionList
  import NetworkWatcher

  datatype Check = Check(id: Text, ticked: bool)

  ghost predicate DistinctIds(checks: seq<Check>) {
    forall i, j :: 0 <= i < j < |checks| ==> checks[i].id != checks[j].id
  }

  ghost predicate NoDuplicates(xs: seq<Text>) {
    forall i, j :: 0 <= i < j < |xs| ==> xs[i] != xs[j]
  }

  // ---------------------------------------------------------------- the rows of the page

  /** Loopback addresses go first; otherwise the order is kept. */
  function Ordered(list: seq<NetworkAddress>): (ordered: seq<NetworkAddress>)
    ensures |ordered| == |list|
  {
    OnlySizes(list);
    Only(list, true) + Only(list, false)
  }

  lemma {:induction false} OnlySizes(list: seq<NetworkAddress>)
    ensures |Only(list, true)| + |Only(list, false)| == |list|
  {
    if list != [] {
      OnlySizes(list[1..]);
    }
  }

  function Only(list: seq<NetworkAddress>, loopback: bool): seq<NetworkAddress> {
    if list == [] then []
    else (if list[0].isLoopback == loopback then [list[0]] else []) + Only(list[1..], loopback)
  }

  lemma {:induction false} OnlyMembers(list: seq<NetworkAddress>, loopback: bool)
    ensures forall a :: a in Only(list, loopback) <==> a in list && a.isLoopback == loopback
  {
    if list != [] {
      OnlyMembers(list[1..], loopback);
      assert list == [list[0]] + list[1..];
    }
  }

  /** The interfaces that get a row, in the order of their rows: one for each address whose controls could be
      created and whose interface has none yet. */
  function RowsOf(addresses: seq<NetworkAddress>, created: seq<bool>): seq<Text>
    requires |created| == |addresses|
    decreases |addresses|
  {
    if addresses == [] then []
    else
      var n := |addresses| - 1;
      var rows := RowsOf(addresses[..n], created[..n]);
      if created[n] && addresses[n].interfaceId !in rows then rows + [addresses[n].interfaceId] else rows
  }

  /** `created[i]` says whether the controls for the i-th address could be created, if it needs them. */
  method BuildRows(list: seq<NetworkAddress>, created: seq<bool>) returns (rows: seq<Text>)
    requires |created| == |list|
    ensures rows == RowsOf(Ordered(list), created)
  {
    var addresses := Ordered(list);
    rows := [];
    for i := 0 to |addresses|
      invariant rows == RowsOf(addresses[..i], created[..i])
    {
      assert addresses[..i + 1][..i] == addresses[..i] && created[..i + 1][..i] == created[..i];
      var a := addresses[i];
      if a.interfaceId !in rows && created[i] {
        rows := rows + [a.interfaceId];
      }
    }
    assert addresses[..|addresses|] == addresses && created[..|created|] == created;
  }

  /** Some address of the interface could get its controls. */
  ghost predicate Creatable(addresses: seq<NetworkAddress>, created: seq<bool>, id: Text)
    requires |created| == |addresses|
  {
    exists i :: 0 <= i < |addresses| && created[i] && addresses[i].interfaceId == id
  }

  /** The first such address. */
  ghost predicate FirstCreatable(addresses: seq<NetworkAddress>, created: seq<bool>, id: Text, i: nat)
    requires |created| == |addresses|
  {
    && i < |addresses| && created[i] && addresses[i].interfaceId == id
    && forall k :: 0 <= k < i ==> !(created[k] && addresses[k].interfaceId == id)
  }

  /** Rows have distinct interfaces, and exactly those with an address that could get its controls. */
  lemma {:induction false} RowsExactly(addresses: seq<NetworkAddress>, created: seq<bool>)
    requires |created| == |addresses|
    ensures NoDuplicates(RowsOf(addresses, created))
    ensures forall id :: id in RowsOf(addresses, created) <==> Creatable(addresses, created, id)
    decreases |addresses|
  {
    if addresses != [] {
      var n := |addresses| - 1;
      RowsExactly(addresses[..n], created[..n]);
      forall id
        ensures Creatable(addresses, created, id) <==>
          Creatable(addresses[..n], created[..n], id) || (created[n] && addresses[n].interfaceId == id)
      {
        CreatableLast(addresses, created, id);
      }
      hide Creatable;
    }
  }

  lemma CreatableLast(addresses: seq<NetworkAddress>, created: seq<bool>, id: Text)
    requires |created| == |addresses| > 0
    ensures var n := |addresses| - 1;
      Creatable(addresses, created, id) <==>
        Creatable(addresses[..n], created[..n], id) || (created[n] && addresses[n].interfaceId == id)
  {
    var n := |addresses| - 1;
    if i :| 0 <= i < n && created[i] && addresses[i].interfaceId == id {
      assert created[..n][i] && addresses[..n][i].interfaceId == id;
    }
    if i :| 0 <= i < n && created[..n][i] && addresses[..n][i].interfaceId == id {
      assert created[i] && addresses[i].interfaceId == id;
    }
  }

  /** Rows come in the order of the first address of each interface that could get its controls. */
  lemma {:induction false} RowsInOrder(addresses: seq<NetworkAddress>, created: seq<bool>, p: nat, q: nat, i: nat,
                                       j: nat)
    requires |created| == |addresses| && p < q < |RowsOf(addresses, created)|
    requires FirstCreatable(addresses, created, RowsOf(addresses, created)[p], i)
    requires FirstCreatable(addresses, created, RowsOf(addresses, created)[q], j)
    ensures i < j
    decreases |addresses|
  {
    var n := |addresses| - 1;
    var front, made := addresses[..n], created[..n];
    var before, rows := RowsOf(front, made), RowsOf(addresses, created);
    RowsExactly(front, made);
    assert before <= rows && |rows| <= |before| + 1;
    FirstStays(addresses, created, rows[p], i);
    FirstStays(addresses, created, rows[q], j);
    assert rows[p] == before[p] && rows[p] in before;
    if q < |before| {
      assert rows[q] == before[q] && rows[q] in before;
      RowsInOrder(front, made, p, q, i, j);
    } else {
      assert rows[q] !in before;
    }
    hide Creatable, FirstCreatable, NoDuplicates;
  }

  lemma FirstStays(addresses: seq<NetworkAddress>, created: seq<bool>, id: Text, i: nat)
    requires |created| == |addresses| > 0 && FirstCreatable(addresses, created, id, i)
    ensures var n := |addresses| - 1;
      if Creatable(addresses[..n], created[..n], id)
      then i < n && FirstCreatable(addresses[..n], created[..n], id, i)
      else i == n
  {
    var n := |addresses| - 1;
    if k :| 0 <= k < n && created[..n][k] && addresses[..n][k].interfaceId == id {
      assert created[k] && addresses[k].interfaceId == id;
    }
    if i < n {
      assert created[..n][i] && addresses[..n][i].interfaceId == id;
    }
  }

  /** The rows' order goes through the loopback addresses first; it is a rearrangement of the list that keeps the
      order within either kind. */
  lemma {:induction false} OrderedExactly(list: seq<NetworkAddress>)
    ensures multiset(Ordered(list)) == multiset(list)
    ensures forall i, j :: 0 <= i < j < |list| && Ordered(list)[j].isLoopback ==> Ordered(list)[i].isLoopback
    ensures Only(Ordered(list), true) == Only(list, true) && Only(Ordered(list), false) == Only(list, false)
  {
    OnlyMembers(list, true);
    OnlyMembers(list, false);
    OnlyCounts(list);
    var a, b := Only(list, true), Only(list, false);
    OnlyConcat(a, b, true);
    OnlyConcat(a, b, false);
    OnlyOfKind(a, true);
    OnlyOfKind(b, false);
    assert a + [] == a && [] + b == b;
  }

  lemma {:induction false} OnlyConcat(a: seq<NetworkAddress>, b: seq<NetworkAddress>, loopback: bool)
    ensures Only(a + b, loopback) == Only(a, loopback) + Only(b, loopback)
    decreases |a|
  {
    if a == [] {
      assert a + b == b;
    } else {
      assert (a + b)[0] == a[0] && (a + b)[1..] == a[1..] + b;
      OnlyConcat(a[1..], b, loopback);
    }
  }

  lemma {:induction false} OnlyOfKind(list: seq<NetworkAddress>, loopback: bool)
    requires forall a :: a in list ==> a.isLoopback == loopback
    ensures Only(list, loopback) == list && Only(list, !loopback) == []
  {
    if list != [] {
      OnlyOfKind(list[1..], loopback);
      assert list == [list[0]] + list[1..];
    }
  }

  lemma {:induction false} OnlyCounts(list: seq<NetworkAddress>)
    ensures multiset(Only(list, true)) + multiset(Only(list, false)) == multiset(list)
  {
    if list != [] {
      OnlyCounts(list[1..]);
      assert list == [list[0]] + list[1..];
    }
  }

  // ---------------------------------------------------------------- loading and saving the ticks

  /** A box is ticked when its interface is not excluded. */
  function Loaded(rows: seq<Text>, excluded: seq<Text>): (checks: seq<Check>)
    ensures |checks| == |rows|
    ensures forall i :: 0 <= i < |rows| ==> checks[i] == Check(rows[i], rows[i] !in excluded)
  {
    seq(|rows|, i requires 0 <= i < |rows| => Check(rows[i], rows[i] !in excluded))
  }

  function RemoveFirst(xs: seq<Text>, x: Text): seq<Text> {
    if xs == [] then [] else if xs[0] == x then xs[1..] else [xs[0]] + RemoveFirst(xs[1..], x)
  }

  /** One box: an unticked interface is appended unless already listed, a ticked one is taken out once. */
  function MergeOne(excluded: seq<Text>, c: Check): seq<Text> {
    if c.ticked then RemoveFirst(excluded, c.id)
    else if c.id in excluded then excluded
    else excluded + [c.id]
  }

  function Merge(excluded: seq<Text>, checks: seq<Check>): seq<Text>
    decreases |checks|
  {
    if checks == [] then excluded else Merge(MergeOne(excluded, checks[0]), checks[1..])
  }

  /** std::find: the first position, or the length. */
  method FindFirst(xs: seq<Text>, x: Text) returns (p: nat)
    ensures p <= |xs| && (p < |xs| <==> x in xs)
    ensures p < |xs| ==> xs[p] == x && xs[..p] + xs[p + 1..] == RemoveFirst(xs, x)
  {
    p := 0;
    while p < |xs| && xs[p] != x
      invariant p <= |xs| && x !in xs[..p]
      invariant xs[..p] + RemoveFirst(xs[p..], x) == RemoveFirst(xs, x)
    {
      assert xs[p..][1..] == xs[p + 1..] && xs[..p + 1] == xs[..p] + [xs[p]];
      assert xs[..p] + ([xs[p]] + RemoveFirst(xs[p + 1..], x)) == xs[..p + 1] + RemoveFirst(xs[p + 1..], x);
      p := p + 1;
    }
    if p < |xs| {
      assert xs[p..][1..] == xs[p + 1..];
    }
  }

  method SaveToSettings(excludedBefore: seq<Text>, checks: seq<Check>) returns (excluded: seq<Text>)
    ensures excluded == Merge(excludedBefore, checks)
  {
    excluded := excludedBefore;
    for i := 0 to |checks|
      invariant Merge(excluded, checks[i..]) == Merge(excludedBefore, checks)
    {
      var c := checks[i];
      assert checks[i..][1..] == checks[i + 1..];
      var exclude := !c.ticked;
      var it := FindFirst(excluded, c.id);
      RemoveFirstAbsent(excluded, c.id);
      if exclude && it == |excluded| {
        excluded := excluded + [c.id];
      } else if !exclude && it < |excluded| {
        excluded := excluded[..it] + excluded[it + 1..];
      }
    }
  }

  lemma {:induction false} RemoveFirstAbsent(xs: seq<Text>, x: Text)
    ensures x !in xs ==> RemoveFirst(xs, x) == xs
  {
    if xs != [] {
      RemoveFirstAbsent(xs[1..], x);
      assert xs == [xs[0]] + xs[1..];
    }
  }

  // ---------------------------------------------------------------- what saving does, in general

  lemma {:induction false} RemoveFirstCounts(xs: seq<Text>, x: Text)
    ensures multiset(RemoveFirst(xs, x)) == multiset(xs) - multiset{x}
  {
    if xs != [] {
      RemoveFirstCounts(xs[1..], x);
      assert xs == [xs[0]] + xs[1..];
      assert multiset(xs) == multiset{xs[0]} + multiset(xs[1..]);
      if xs[0] != x {
        assert multiset(RemoveFirst(xs, x)) == multiset{xs[0]} + multiset(RemoveFirst(xs[1..], x));
      }
    }
  }

  /** How often an interface is listed after its box has been saved. */
  function CountAfter(before: nat, ticked: bool): nat {
    if ticked then (if before == 0 then 0 else before - 1) else if before == 0 then 1 else before
  }

  lemma MergeOneCounts(excluded: seq<Text>, c: Check, x: Text)
    ensures multiset(MergeOne(excluded, c))[x] ==
      if x == c.id then CountAfter(multiset(excluded)[x], c.ticked) else multiset(excluded)[x]
  {
    RemoveFirstCounts(excluded, c.id);
    assert c.id in excluded <==> multiset(excluded)[c.id] > 0;
  }

  lemma DistinctTailIds(checks: seq<Check>)
    requires checks != [] && DistinctIds(checks)
    ensures DistinctIds(checks[1..]) && forall c :: c in checks[1..] ==> c.id != checks[0].id
  {
    forall c | c in checks[1..]
      ensures c.id != checks[0].id
    {
      var j :| 0 <= j < |checks[1..]| && checks[1..][j] == c;
      assert checks[j + 1] == c;
    }
  }

  lemma {:induction false} MergeCountHidden(excluded: seq<Text>, checks: seq<Check>, x: Text)
    requires forall c :: c in checks ==> c.id != x
    ensures multiset(Merge(excluded, checks))[x] == multiset(excluded)[x]
    decreases |checks|
  {
    if checks != [] {
      MergeOneCounts(excluded, checks[0], x);
      MergeCountHidden(MergeOne(excluded, checks[0]), checks[1..], x);
    }
  }

  lemma {:induction false} MergeCountShown(excluded: seq<Text>, checks: seq<Check>, c: Check)
    requires DistinctIds(checks) && c in checks
    ensures multiset(Merge(excluded, checks))[c.id] == CountAfter(multiset(excluded)[c.id], c.ticked)
    decreases |checks|
  {
    MergeOneCounts(excluded, checks[0], c.id);
    DistinctTailIds(checks);
    assert checks == [checks[0]] + checks[1..];
    if c == checks[0] {
      MergeCountHidden(MergeOne(excluded, c), checks[1..], c.id);
    } else {
      MergeCountShown(MergeOne(excluded, checks[0]), checks[1..], c);
    }
  }

  /** Every shown interface ends up excluded exactly if unticked, exactly when no ticked interface was
      listed more than once. */
  lemma ShownFollowTicks(excluded: seq<Text>, checks: seq<Check>)
    requires DistinctIds(checks)
    ensures (forall c :: c in checks ==> (c.id in Merge(excluded, checks) <==> !c.ticked)) <==>
      (forall c :: c in checks && c.ticked ==> multiset(excluded)[c.id] <= 1)
  {
    var after := Merge(excluded, checks);
    forall c | c in checks
      ensures c.id in after <==> CountAfter(multiset(excluded)[c.id], c.ticked) > 0
    {
      MergeCountShown(excluded, checks, c);
      assert c.id in after <==> multiset(after)[c.id] > 0;
    }
    hide Merge, DistinctIds;
  }

  /** A list edited by hand to name an interface twice keeps it excluded although its box is ticked. */
  lemma TickedButExcluded(id: Text)
    ensures var checks := [Check(id, true)];
      DistinctIds(checks) && id in Merge([id, id], checks)
  {
    var checks, twice := [Check(id, true)], [id, id];
    assert checks[1..] == [] && twice[1..] == [id];
    assert Merge(twice, checks) == Merge(MergeOne(twice, checks[0]), []) == [id];
  }

  /** Opening the page and saving it unedited changes nothing, whatever the list. */
  lemma {:induction false} LoadThenSave(rows: seq<Text>, excluded: seq<Text>)
    ensures Merge(excluded, Loaded(rows, excluded)) == excluded
  {
    UnchangedTicks(excluded, Loaded(rows, excluded));
  }

  lemma {:induction false} UnchangedTicks(excluded: seq<Text>, checks: seq<Check>)
    requires forall c :: c in checks ==> (c.ticked <==> c.id !in excluded)
    ensures Merge(excluded, checks) == excluded
    decreases |checks|
  {
    if checks != [] {
      RemoveFirstAbsent(excluded, checks[0].id);
      UnchangedTicks(excluded, checks[1..]);
    }
  }

  // ---------------------------------------------------------------- lists without duplicates

  function Ticked(checks: seq<Check>): set<Text> {
    set c | c in checks && c.ticked :: c.id
  }

  function Without(xs: seq<Text>, gone: set<Text>): seq<Text> {
    if xs == [] then [] else (if xs[0] in gone then [] else [xs[0]]) + Without(xs[1..], gone)
  }

  /** The unticked interfaces not listed yet, in the order of their boxes. */
  function Added(excluded: seq<Text>, checks: seq<Check>): seq<Text>
    decreases |checks|
  {
    if checks == [] then []
    else
      var c := checks[|checks| - 1];
      Added(excluded, checks[..|checks| - 1]) + if !c.ticked && c.id !in excluded then [c.id] else []
  }

  lemma {:induction false} MergeSnoc(excluded: seq<Text>, checks: seq<Check>, c: Check)
    ensures Merge(excluded, checks + [c]) == MergeOne(Merge(excluded, checks), c)
    decreases |checks|
  {
    if checks == [] {
      assert checks + [c] == [c] && [c][1..] == [];
    } else {
      assert (checks + [c])[1..] == checks[1..] + [c];
      MergeSnoc(MergeOne(excluded, checks[0]), checks[1..], c);
    }
  }

  lemma {:induction false} WithoutMembers(xs: seq<Text>, gone: set<Text>)
    ensures forall x :: x in Without(xs, gone) <==> x in xs && x !in gone
  {
    if xs != [] {
      WithoutMembers(xs[1..], gone);
      assert xs == [xs[0]] + xs[1..];
    }
  }

  lemma {:induction false} WithoutAbsent(xs: seq<Text>, gone: set<Text>, x: Text)
    requires x !in xs
    ensures Without(xs, gone + {x}) == Without(xs, gone)
  {
    if xs != [] {
      WithoutAbsent(xs[1..], gone, x);
    }
  }

  lemma {:induction false} RemoveFirstOfConcat(a: seq<Text>, tail: seq<Text>, x: Text)
    requires x !in tail
    ensures RemoveFirst(a + tail, x) == RemoveFirst(a, x) + tail
  {
    if a == [] {
      RemoveFirstAbsent(tail, x);
      assert a + tail == tail;
    } else {
      assert (a + tail)[1..] == a[1..] + tail;
      RemoveFirstOfConcat(a[1..], tail, x);
    }
  }

  lemma RemoveFirstHead(first: Text, rest: seq<Text>, x: Text)
    ensures RemoveFirst([first] + rest, x) == if first == x then rest else [first] + RemoveFirst(rest, x)
  {
    var xs := [first] + rest;
    assert xs[0] == first && xs[1..] == rest;
  }

  /** In a list without duplicates, taking out the first occurrence takes out the only one. */
  lemma {:induction false} RemoveFirstIsWithout(xs: seq<Text>, gone: set<Text>, x: Text)
    requires NoDuplicates(xs) && x !in gone
    ensures RemoveFirst(Without(xs, gone), x) == Without(xs, gone + {x})
  {
    hide RemoveFirst;
    if xs == [] {
      RemoveFirstAbsent([], x);
    } else {
      RemoveFirstIsWithout(xs[1..], gone, x);
      var rest := Without(xs[1..], gone);
      RemoveFirstHead(xs[0], rest, x);
      assert [] + rest == rest;
      if xs[0] == x {
        assert x !in xs[1..];
        WithoutAbsent(xs[1..], gone, x);
      }
    }
  }

  lemma {:induction false} AddedMembers(excluded: seq<Text>, checks: seq<Check>)
    ensures forall x :: x in Added(excluded, checks) ==> x !in excluded && exists c :: c in checks && c.id == x
    decreases |checks|
  {
    if checks != [] {
      AddedMembers(excluded, checks[..|checks| - 1]);
    }
  }

  lemma FrontChecks(checks: seq<Check>)
    requires checks != [] && DistinctIds(checks)
    ensures var front, c := checks[..|checks| - 1], checks[|checks| - 1];
      && checks == front + [c] && DistinctIds(front)
      && (forall d :: d in front ==> d.id != c.id)
      && Ticked(checks) == (if c.ticked then Ticked(front) + {c.id} else Ticked(front))
      && c.id !in Ticked(front)
  {
    var front, c := checks[..|checks| - 1], checks[|checks| - 1];
    assert forall d :: d in checks <==> d in front || d == c;
  }

  /** From a list without duplicates the save loop keeps what is not ticked, hidden interfaces
      included, in its order, and appends the newly unticked interfaces in the order of their boxes. */
  lemma {:induction false} MergeExactly(excluded: seq<Text>, checks: seq<Check>)
    requires NoDuplicates(excluded) && DistinctIds(checks)
    ensures Merge(excluded, checks) == Without(excluded, Ticked(checks)) + Added(excluded, checks)
    decreases |checks|
  {
    if checks == [] {
      assert Ticked(checks) == {};
      WithoutNothing(excluded);
    } else {
      var front, c := checks[..|checks| - 1], checks[|checks| - 1];
      FrontChecks(checks);
      MergeExactly(excluded, front);
      MergeSnoc(excluded, front, c);
      AddedMembers(excluded, front);
      WithoutMembers(excluded, Ticked(front));
      hide Merge, DistinctIds, Ticked, NoDuplicates, Without;
      if c.ticked {
        RemoveFirstOfConcat(Without(excluded, Ticked(front)), Added(excluded, front), c.id);
        RemoveFirstIsWithout(excluded, Ticked(front), c.id);
        assert Added(excluded, front) + [] == Added(excluded, front);
      } else if c.id in excluded {
        assert Added(excluded, front) + [] == Added(excluded, front);
      } else {
        assert Without(excluded, Ticked(front)) + (Added(excluded, front) + [c.id])
            == Without(excluded, Ticked(front)) + Added(excluded, front) + [c.id];
      }
    }
  }

  lemma {:induction false} WithoutNothing(xs: seq<Text>)
    ensures Without(xs, {}) == xs
  {
    if xs != [] {
      WithoutNothing(xs[1..]);
      assert xs == [xs[0]] + xs[1..];
    }
  }

  function Shown(checks: seq<Check>): set<Text> {
    set c | c in checks :: c.id
  }

  lemma {:induction false} WithoutConcat(a: seq<Text>, b: seq<Text>, gone: set<Text>)
    ensures Without(a + b, gone) == Without(a, gone) + Without(b, gone)
  {
    if a == [] {
      assert a + b == b;
    } else {
      assert (a + b)[1..] == a[1..] + b;
      WithoutConcat(a[1..], b, gone);
    }
  }

  lemma {:induction false} WithoutTwice(xs: seq<Text>, some: set<Text>, all: set<Text>)
    requires some <= all
    ensures Without(Without(xs, some), all) == Without(xs, all)
  {
    if xs != [] {
      WithoutTwice(xs[1..], some, all);
      var rest := Without(xs[1..], some);
      assert xs[0] !in some ==> ([xs[0]] + rest)[0] == xs[0] && ([xs[0]] + rest)[1..] == rest;
      assert xs[0] in some ==> [] + rest == rest;
    }
  }

  lemma {:induction false} WithoutAll(xs: seq<Text>, gone: set<Text>)
    requires forall x :: x in xs ==> x in gone
    ensures Without(xs, gone) == []
  {
    if xs != [] {
      WithoutAll(xs[1..], gone);
    }
  }

  lemma CountOfDistinct(xs: seq<Text>)
    ensures NoDuplicates(xs) <==> forall x :: multiset(xs)[x] <= 1
  {
    if !NoDuplicates(xs) {
      var i, j :| 0 <= i < j < |xs| && xs[i] == xs[j];
      var before, after := xs[..j], xs[j..];
      assert xs == before + after;
      assert before[i] == xs[i] && after[0] == xs[i];
      assert xs[i] in before && xs[i] in after;
      assert multiset(xs) == multiset(before) + multiset(after);
      assert multiset(xs)[xs[i]] >= 2;
    } else {
      DistinctCounts(xs);
    }
  }

  lemma {:induction false} DistinctCounts(xs: seq<Text>)
    requires NoDuplicates(xs)
    ensures forall x :: multiset(xs)[x] <= 1
  {
    if xs != [] {
      DistinctCounts(xs[1..]);
      assert xs == [xs[0]] + xs[1..];
      assert xs[0] !in xs[1..];
    }
  }

  /** From a list without duplicates: each shown interface ends up excluded exactly if unticked, the
      entries of hidden interfaces stay in their order, and the list keeps having no duplicates. */
  lemma MergeOfCleanList(excluded: seq<Text>, checks: seq<Check>)
    requires NoDuplicates(excluded) && DistinctIds(checks)
    ensures var after := Merge(excluded, checks);
      && NoDuplicates(after)
      && (forall c :: c in checks ==> (c.id in after <==> !c.ticked))
      && Without(after, Shown(checks)) == Without(excluded, Shown(checks))
      && (forall x :: x in after ==> x in excluded || x in Shown(checks))
  {
    var after := Merge(excluded, checks);
    CountOfDistinct(excluded);
    ShownFollowTicks(excluded, checks);
    forall x
      ensures multiset(after)[x] <= 1
    {
      if c :| c in checks && c.id == x {
        MergeCountShown(excluded, checks, c);
      } else {
        MergeCountHidden(excluded, checks, x);
      }
    }
    CountOfDistinct(after);
    MergeExactly(excluded, checks);
    AddedMembers(excluded, checks);
    WithoutMembers(excluded, Ticked(checks));
    WithoutConcat(Without(excluded, Ticked(checks)), Added(excluded, checks), Shown(checks));
    WithoutTwice(excluded, Ticked(checks), Shown(checks));
    WithoutAll(Added(excluded, checks), Shown(checks));
  }

  /** From the page to the network: after the ticks are saved, stored and read back, the watcher allows
      an address exactly if the box of its interface was ticked. */
  lemma TicksDecideAllowed(store: ExclusionList.Store, excluded: seq<Text>, checks: seq<Check>,
                           list: seq<NetworkAddress>)
    requires NoDuplicates(excluded) && DistinctIds(checks)
    requires forall x :: x in excluded || x in Shown(checks) ==>
      x != [] && !ExclusionList.Contains(x, ExclusionList.SEPARATOR)
    ensures var stored := ExclusionList.Load(ExclusionList.Save(store, Merge(excluded, checks)));
      forall c, a :: c in checks && a in list && a.interfaceId == c.id ==>
        (a in NetworkWatcher.Allowed(list, stored) <==> c.ticked)
  {
    MergeOfCleanList(excluded, checks);
    var after := Merge(excluded, checks);
    hide Merge, NoDuplicates, DistinctIds, Without, ExclusionList.Save, ExclusionList.Load;
    assert forall x :: x in after ==> x != [] && !ExclusionList.Contains(x, ExclusionList.SEPARATOR);
    ExclusionList.SaveThenLoad(store, after);
    NetworkWatcher.AllowedExactly(list, after);
  }
}
