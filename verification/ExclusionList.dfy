/** The list of excluded interfaces in the configuration store (src/settings.cpp:106-132, 167 and
    185-188): joined with a separator, split when read. */
module ExclusionList {
  import opened Options
  import opened Texts

  const SEPARATOR: Byte := '|'

  // ---------------------------------------------------------------- the codec, as functions

  /** The items between separators, empty ones dropped; `item` is the part already read. */
  function SplitFrom(item: Text, rest: Text, separator: Byte): seq<Text>
    decreases |rest|
  {
    if rest == [] then NonEmpty([item])
    else if rest[0] == separator then NonEmpty([item]) + SplitFrom([], rest[1..], separator)
    else SplitFrom(item + [rest[0]], rest[1..], separator)
  }

  function Split(joined: Text, separator: Byte): seq<Text> {
    SplitFrom([], joined, separator)
  }

  function NonEmpty(items: seq<Text>): seq<Text> {
    if items == [] then [] else (if items[0] == [] then [] else [items[0]]) + NonEmpty(items[1..])
  }

  /** One more item: a separator goes before it unless the text is still empty. */
  function JoinOne(joined: Text, item: Text, separator: Byte): Text {
    (if joined == [] then [] else joined + [separator]) + item
  }

  function Join(items: seq<Text>, separator: Byte): Text
    decreases |items|
  {
    if items == [] then [] else JoinOne(Join(items[..|items| - 1], separator), items[|items| - 1], separator)
  }

  // ---------------------------------------------------------------- the loops

  method JoinList(items: seq<Text>, separator: Byte) returns (joined: Text)
    ensures joined == Join(items, separator)
  {
    joined := [];
    for i := 0 to |items|
      invariant joined == Join(items[..i], separator)
    {
      assert items[..i + 1][..i] == items[..i];
      joined := (if joined == [] then [] else joined + [separator]) + items[i];
    }
    assert items[..|items|] == items;
  }

  /** Without a separator in the first n characters they all belong to the first item. */
  lemma {:induction false} SplitSkips(item: Text, rest: Text, separator: Byte, n: nat)
    requires n <= |rest| && forall i :: 0 <= i < n ==> rest[i] != separator
    ensures SplitFrom(item, rest, separator) == SplitFrom(item + rest[..n], rest[n..], separator)
    decreases n
  {
    if n == 0 {
      assert item + rest[..0] == item;
    } else {
      SplitSkips(item + [rest[0]], rest[1..], separator, n - 1);
      assert item + [rest[0]] + rest[1..][..n - 1] == item + rest[..n];
      assert rest[1..][n - 1..] == rest[n..];
    }
  }

  /** Cutting the text at a separator, or at its end. */
  lemma SplitCut(joined: Text, separator: Byte, start: nat, end: nat)
    requires start <= end <= |joined|
    requires forall i :: start <= i < end ==> joined[i] != separator
    requires end < |joined| ==> joined[end] == separator
    ensures Split(joined[start..], separator) ==
      NonEmpty([joined[start..end]]) + if end < |joined| then Split(joined[end + 1..], separator) else []
  {
    var rest := joined[start..];
    SplitSkips([], rest, separator, end - start);
    assert [] + rest[..end - start] == joined[start..end];
    assert rest[end - start..] == joined[end..];
    if end < |joined| {
      assert joined[end..][1..] == joined[end + 1..];
    } else {
      assert joined[end..] == [];
      assert NonEmpty([joined[start..end]]) + [] == NonEmpty([joined[start..end]]);
    }
  }

  lemma NonEmptyOne(item: Text)
    ensures NonEmpty([item]) == if item == [] then [] else [item]
  {
    assert [item][1..] == [];
  }

  /** The next item ends at the first separator, or at the end of the text. */
  lemma NextItem(joined: Text, separator: Byte, start: nat, found: Option<nat>)
    requires start <= |joined| && found == Find(joined, [separator], start)
    ensures found.Some? ==> start <= found.value < |joined|
    ensures var end := if found.Some? then found.value else |joined|;
      Split(joined[start..], separator) ==
        (if start == end then [] else [joined[start..end]]) +
        (if found.Some? then Split(joined[end + 1..], separator) else [])
  {
    var end := if found.Some? then found.value else |joined|;
    if found.Some? {
      assert joined[end..end + 1] == [separator];
    }
    forall i | start <= i < end
      ensures joined[i] != separator
    {
      if joined[i] == separator {
        assert OccursAt(joined, [separator], i);
      }
    }
    SplitCut(joined, separator, start, end);
    NonEmptyOne(joined[start..end]);
  }

  method SplitList(joined: Text, separator: Byte) returns (items: seq<Text>)
    ensures items == Split(joined, separator)
  {
    items := [];
    var start := 0;
    assert joined[0..] == joined;
    while start <= |joined|
      invariant start <= |joined|
      invariant items + Split(joined[start..], separator) == Split(joined, separator)
      decreases |joined| - start
    {
      var found := Find(joined, [separator], start);
      NextItem(joined, separator, start, found);
      hide Split;
      var end := if found.Some? then found.value else |joined|;
      var item := joined[start..end];
      if item != [] {
        items := items + [item];
      }
      if found.None? {
        break;
      }
      start := end + 1;
    }
  }

  // ---------------------------------------------------------------- round trips

  ghost predicate Contains(item: Text, separator: Byte) {
    exists i :: 0 <= i < |item| && item[i] == separator
  }

  lemma {:induction false} NonEmptyAppend(a: seq<Text>, b: seq<Text>)
    ensures NonEmpty(a + b) == NonEmpty(a) + NonEmpty(b)
  {
    if a == [] {
      assert a + b == b;
    } else {
      assert (a + b)[1..] == a[1..] + b;
      NonEmptyAppend(a[1..], b);
    }
  }

  lemma {:induction false} NonEmptyMembers(items: seq<Text>)
    ensures forall x :: x in NonEmpty(items) <==> x in items && x != []
    ensures [] !in items ==> NonEmpty(items) == items
  {
    if items != [] {
      NonEmptyMembers(items[1..]);
      assert items == [items[0]] + items[1..];
    }
  }

  /** A separator in the text splits it into two texts read on their own. */
  lemma {:induction false} SplitAtSeparator(item: Text, a: Text, b: Text, separator: Byte)
    ensures SplitFrom(item, a + [separator] + b, separator) == SplitFrom(item, a, separator) + Split(b, separator)
    decreases |a|
  {
    var whole := a + [separator] + b;
    if a == [] {
      assert whole[0] == separator && whole[1..] == b;
    } else {
      assert whole[0] == a[0] && whole[1..] == a[1..] + [separator] + b;
      if a[0] == separator {
        SplitAtSeparator([], a[1..], b, separator);
      } else {
        SplitAtSeparator(item + [a[0]], a[1..], b, separator);
      }
    }
  }

  lemma SplitPlain(item: Text, separator: Byte)
    requires !Contains(item, separator)
    ensures Split(item, separator) == NonEmpty([item])
  {
    SplitCut(item, separator, 0, |item|);
    assert item[0..] == item && item[0..|item|] == item;
    assert NonEmpty([item]) + [] == NonEmpty([item]);
  }

  lemma {:induction false} SplitOfJoin(items: seq<Text>, separator: Byte)
    requires forall x :: x in items ==> !Contains(x, separator)
    ensures Split(Join(items, separator), separator) == NonEmpty(items)
    decreases |items|
  {
    if items == [] {
      NonEmptyOne([]);
    } else {
      var front, last := items[..|items| - 1], items[|items| - 1];
      assert items == front + [last];
      SplitOfJoin(front, separator);
      SplitPlain(last, separator);
      NonEmptyAppend(front, [last]);
      var joined := Join(front, separator);
      if joined == [] {
        NonEmptyOne([]);
        assert NonEmpty(front) == [];
        assert [] + last == last;
      } else {
        SplitAtSeparator([], joined, last, separator);
      }
    }
  }

  lemma {:induction false} SplitItemsPlain(item: Text, rest: Text, separator: Byte)
    requires !Contains(item, separator)
    ensures forall x :: x in SplitFrom(item, rest, separator) ==> x != [] && !Contains(x, separator)
    decreases |rest|
  {
    NonEmptyOne(item);
    if rest != [] {
      if rest[0] == separator {
        SplitItemsPlain([], rest[1..], separator);
      } else {
        SplitItemsPlain(item + [rest[0]], rest[1..], separator);
      }
    }
  }

  /** Splitting what was joined gives the items back, empty ones dropped, exactly when no item
      contains the separator. */
  lemma RoundTrip(items: seq<Text>, separator: Byte)
    ensures Split(Join(items, separator), separator) == NonEmpty(items) <==>
      forall x :: x in items ==> !Contains(x, separator)
  {
    if forall x :: x in items ==> !Contains(x, separator) {
      SplitOfJoin(items, separator);
    } else {
      var x :| x in items && Contains(x, separator);
      NonEmptyMembers(items);
      SplitItemsPlain([], Join(items, separator), separator);
      assert x in NonEmpty(items);
    }
  }

  // ---------------------------------------------------------------- the store

  type Store = map<string, Text>

  const KEY := "AIMPRemoteControl\\Network\\ExcludedInterfaces"

  function Save(store: Store, excluded: seq<Text>): Store {
    if excluded == [] then store - {KEY} else store[KEY := Join(excluded, SEPARATOR)]
  }

  function Load(store: Store): seq<Text> {
    Split(if KEY in store then store[KEY] else [], SEPARATOR)
  }

  /** The text kept: items one after the other with one separator in between, none at the ends. */
  lemma JoinedText(items: seq<Text>, item: Text, separator: Byte)
    ensures Join([], separator) == [] && Join([item], separator) == item
    ensures Join(items, separator) != [] ==>
      Join(items + [item], separator) == Join(items, separator) + [separator] + item
  {
    assert (items + [item])[..|items|] == items;
    assert [item][..0] == [] && [] + item == item;
  }

  /** Saving and loading gives the list back exactly when its items are nonempty and free of the
      separator; other settings are not touched, and an empty list leaves no entry. */
  lemma SaveThenLoad(store: Store, excluded: seq<Text>)
    ensures Load(Save(store, excluded)) == excluded <==>
      forall x :: x in excluded ==> x != [] && !Contains(x, '|')
    ensures var key := "AIMPRemoteControl\\Network\\ExcludedInterfaces";
      && (key in Save(store, excluded) <==> excluded != [])
      && (excluded != [] ==> Save(store, excluded)[key] == Join(excluded, '|'))
      && forall k :: k != key ==> (k in Save(store, excluded) <==> k in store) &&
                                  (k in store ==> Save(store, excluded)[k] == store[k])
  {
    var joined: Text := if excluded == [] then [] else Join(excluded, SEPARATOR);
    assert Load(Save(store, excluded)) == Split(Join(excluded, SEPARATOR), SEPARATOR);
    SplitItemsPlain([], joined, SEPARATOR);
    if forall x :: x in excluded ==> x != [] && !Contains(x, SEPARATOR) {
      SplitOfJoin(excluded, SEPARATOR);
      NonEmptyMembers(excluded);
    }
  }
}
