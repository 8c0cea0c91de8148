/** The playlist checksum of src/remoteControlCommands/getPlaylistsCommand.cpp: one CRC folded over
    the UTF-8 file names of a playlist. */
module PlaylistChecksum {
  import opened Crc32
  import opened Options

  /** What the player hands out: no list at all, or a list in which single names may be unavailable. */
  type FileNames = Option<seq<Option<seq<bv8>>>>

  /** All retrieved names, one after the other. */
  function Retrieved(names: seq<Option<seq<bv8>>>): seq<bv8> {
    if names == [] then []
    else (if names[0].Some? then names[0].value else []) + Retrieved(names[1..])
  }

  function Text(files: FileNames): seq<bv8> {
    if files.None? then [] else Retrieved(files.value)
  }

  lemma {:induction false} RetrievedAppend(names: seq<Option<seq<bv8>>>, name: Option<seq<bv8>>)
    ensures Retrieved(names + [name]) == Retrieved(names) + if name.Some? then name.value else []
  {
    if names == [] {
      assert names + [name] == [name];
      assert [name][1..] == [];
    } else {
      var all := names + [name];
      assert all[0] == names[0] && all[1..] == names[1..] + [name];
      assert Retrieved(all) == (if names[0].Some? then names[0].value else []) + Retrieved(names[1..] + [name]);
      RetrievedAppend(names[1..], name);
    }
  }

  lemma {:induction false} RetrievedConcat(a: seq<Option<seq<bv8>>>, b: seq<Option<seq<bv8>>>)
    ensures Retrieved(a + b) == Retrieved(a) + Retrieved(b)
    decreases |a|
  {
    if a == [] {
      assert a + b == b;
    } else {
      assert (a + b)[0] == a[0] && (a + b)[1..] == a[1..] + b;
      RetrievedConcat(a[1..], b);
      var first := if a[0].Some? then a[0].value else [];
      assert first + (Retrieved(a[1..]) + Retrieved(b)) == first + Retrieved(a[1..]) + Retrieved(b);
    }
  }

  /** The loop equals one CRC over the concatenation; missing and empty names contribute nothing. */
  method ComputePlaylistCrc32(table: array<bv32>, files: FileNames) returns (crc: bv32)
    requires IsTable(table)
    ensures crc == Crc(0, Text(files))
  {
    hide Crc;
    Streaming(0, [], []);
    if files.None? {
      return 0;
    }
    crc := 0;
    var names := files.value;
    for i := 0 to |names|
      invariant crc == Crc(0, Retrieved(names[..i]))
    {
      assert names[..i + 1] == names[..i] + [names[i]];
      RetrievedAppend(names[..i], names[i]);
      assert Retrieved(names[..i]) + [] == Retrieved(names[..i]);
      if names[i].Some? {
        var utf8 := names[i].value;
        Streaming(0, Retrieved(names[..i]), utf8);
        if utf8 != [] {
          crc := Crc32Update(table, crc, utf8);
        }
      }
    }
    assert names[..|names|] == names;
  }

  /** What the client relies on to decide whether to reload: for playlists whose names differ within
      four consecutive bytes, the checksums agree exactly when the concatenated names do. */
  lemma ChecksumTellsChange(a: FileNames, b: FileNames, from: nat)
    requires DifferOnlyWithin(Text(a), Text(b), from, 4)
    ensures Crc(0, Text(a)) == Crc(0, Text(b)) <==> Text(a) == Text(b)
  {
    if Text(a) != Text(b) {
      FourByteChangeDetected(0, Text(a), Text(b), from);
    }
  }

  /** In general, for any two playlists: exactly if the difference of the concatenated names, aligned at
      their ends, cancels what the longer one's surplus at the front did to the register. */
  lemma ChecksumEqualExactlyIf(a: FileNames, b: FileNames)
    ensures Crc(0, Text(a)) == Crc(0, Text(b)) <==>
            if |Text(a)| <= |Text(b)| then Cancels(0, Text(a), Text(b)) else Cancels(0, Text(b), Text(a))
  {
    hide Crc, Cancels, Text;
    if |Text(a)| <= |Text(b)| {
      DetectedExactlyIf(0, Text(a), Text(b));
    } else {
      DetectedExactlyIf(0, Text(b), Text(a));
    }
  }

  /** So a change that keeps the total length, whatever else it does, is told exactly if the difference
      does not take the zero register back to zero. */
  lemma SameLengthEqualExactlyIf(a: FileNames, b: FileNames)
    requires |Text(a)| == |Text(b)|
    ensures Crc(0, Text(a)) == Crc(0, Text(b)) <==> FeedBits(0, Difference(Bits(Text(a)), Bits(Text(b)))) == 0
  {
    hide Crc, FeedBits, Bits, Difference;
    EqualLengthDetectedExactlyIf(0, Text(a), Text(b));
  }

  /** Where one name ends and the next begins is invisible: these playlists differ and the client
      is told they do not. */
  lemma BoundariesAreInvisible(name: seq<bv8>, k: nat)
    requires 0 < k < |name|
    ensures var whole, split := Some([Some(name)]), Some([Some(name[..k]), Some(name[k..])]);
      whole != split && Crc(0, Text(whole)) == Crc(0, Text(split))
  {
    hide Crc;
    var one, two := [Some(name)], [Some(name[..k]), Some(name[k..])];
    RetrievedAppend([], Some(name));
    RetrievedAppend([Some(name[..k])], Some(name[k..]));
    RetrievedAppend([], Some(name[..k]));
    assert [] + one == one && [] + [Some(name[..k])] == [Some(name[..k])];
    assert [Some(name[..k])] + [Some(name[k..])] == two;
    assert Retrieved(one) == [] + name == name;
    assert Retrieved(two) == [] + name[..k] + name[k..] == name;
  }

  lemma {:induction false} NothingRetrieved(names: seq<Option<seq<bv8>>>)
    requires forall i :: 0 <= i < |names| ==> names[i].None? || names[i].value == []
    ensures Retrieved(names) == []
  {
    if names != [] {
      NothingRetrieved(names[1..]);
    }
  }

  /** Names that cannot be retrieved, or are empty, do not matter wherever they stand, and no list at all has the
      checksum 0. */
  lemma MissingNamesDoNotMatter(a: seq<Option<seq<bv8>>>, missing: seq<Option<seq<bv8>>>, b: seq<Option<seq<bv8>>>)
    requires forall i :: 0 <= i < |missing| ==> missing[i].None? || missing[i].value == []
    ensures Crc(0, Text(Some(a + missing + b))) == Crc(0, Text(Some(a + b)))
    ensures Crc(0, Text(None)) == Crc(0, Text(Some(missing))) == 0
  {
    hide Crc, Retrieved;
    Streaming(0, [], []);
    NothingRetrieved(missing);
    RetrievedConcat(a + missing, b);
    RetrievedConcat(a, missing);
    RetrievedConcat(a, b);
    assert Retrieved(a) + [] + Retrieved(b) == Retrieved(a) + Retrieved(b);
  }
}
