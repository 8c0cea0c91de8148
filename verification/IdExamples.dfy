/** The identifiers of a concrete playlist and a concrete track, and the customary check value of the CRC. */
module IdExamples {
  import opened Crc32
  import opened IdCollision
  import opened IdTables
  import opened Options
  import opened Probing
  import opened Texts

  lemma StepsCheck()
    ensures ByteStep(0xFFFFFFFF, 0x31) == 0x7C231048
    ensures ByteStep(0x7C231048, 0x32) == 0xB0ACBB32
    ensures ByteStep(0xB0ACBB32, 0x33) == 0x77B79C2D
    ensures ByteStep(0x77B79C2D, 0x34) == 0x641C1F5C
    ensures ByteStep(0x641C1F5C, 0x35) == 0x340AC5E3
  {}

  lemma StepsCheckEnd()
    ensures ByteStep(0x340AC5E3, 0x36) == 0xF68D2C9E
    ensures ByteStep(0xF68D2C9E, 0x37) == 0xAFFC9660
    ensures ByteStep(0xAFFC9660, 0x38) == 0x651F2550
    ensures ByteStep(0x651F2550, 0x39) == 0x340BC6D9
  {}

  /** The checksum of the nine digits 1 to 9, by which implementations of this CRC are recognized. */
  lemma CheckValue()
    ensures Crc(0, [0x31, 0x32, 0x33, 0x34, 0x35, 0x36, 0x37, 0x38, 0x39]) == 0xCBF43926
  {
    StepsCheck();
    StepsCheckEnd();
    var r0: seq<bv8> := [];
    ReachesEnd(0x340BC6D9);
    hide ByteStep, Reaches, Crc;
    var r1 := Prepend(0x39, r0, 0x651F2550, 0x340BC6D9, 0x340BC6D9);
    var r2 := Prepend(0x38, r1, 0xAFFC9660, 0x651F2550, 0x340BC6D9);
    var r3 := Prepend(0x37, r2, 0xF68D2C9E, 0xAFFC9660, 0x340BC6D9);
    var r4 := Prepend(0x36, r3, 0x340AC5E3, 0xF68D2C9E, 0x340BC6D9);
    var r5 := Prepend(0x35, r4, 0x641C1F5C, 0x340AC5E3, 0x340BC6D9);
    var r6 := Prepend(0x34, r5, 0x77B79C2D, 0x641C1F5C, 0x340BC6D9);
    var r7 := Prepend(0x33, r6, 0xB0ACBB32, 0x77B79C2D, 0x340BC6D9);
    var r8 := Prepend(0x32, r7, 0x7C231048, 0xB0ACBB32, 0x340BC6D9);
    var r9 := Prepend(0x31, r8, 0xFFFFFFFF, 0x7C231048, 0x340BC6D9);
    assert r9 == [0x31, 0x32, 0x33, 0x34, 0x35, 0x36, 0x37, 0x38, 0x39];
    FinishCrc(r9, 0x340BC6D9);
  }

  const A: Text := ['a']
  const A_COLON_12: Text := ['a', ':', '1', '2']

  lemma StepsTrack()
    ensures ByteStep(0xFFFFFFFF, 0x61) == 0x174841BC
    ensures ByteStep(0x174841BC, 0x3A) == 0x04CC6E54
    ensures ByteStep(0x04CC6E54, 0x31) == 0x3DDC59B9
    ensures ByteStep(0x3DDC59B9, 0x32) == 0x7A5786F1
  {}

  lemma PlaylistReaches()
    ensures Reaches(0xFFFFFFFF, [0x61], 0x174841BC)
  {
    StepsTrack();
    var r0: seq<bv8> := [];
    ReachesEnd(0x174841BC);
    hide ByteStep, Reaches;
    var r1 := Prepend(0x61, r0, 0xFFFFFFFF, 0x174841BC, 0x174841BC);
    assert r1 == [0x61];
  }

  lemma TrackReaches()
    ensures Reaches(0xFFFFFFFF, [0x61, 0x3A, 0x31, 0x32], 0x7A5786F1)
  {
    StepsTrack();
    var r0: seq<bv8> := [];
    ReachesEnd(0x7A5786F1);
    hide ByteStep, Reaches;
    var r1 := Prepend(0x32, r0, 0x3DDC59B9, 0x7A5786F1, 0x7A5786F1);
    var r2 := Prepend(0x31, r1, 0x04CC6E54, 0x3DDC59B9, 0x7A5786F1);
    var r3 := Prepend(0x3A, r2, 0x174841BC, 0x04CC6E54, 0x7A5786F1);
    var r4 := Prepend(0x61, r3, 0xFFFFFFFF, 0x174841BC, 0x7A5786F1);
    assert r4 == [0x61, 0x3A, 0x31, 0x32];
  }

  lemma ExampleBytes()
    ensures BytesOf(A) == [0x61]
    ensures BytesOf(A_COLON_12) == [0x61, 0x3A, 0x31, 0x32]
  {
    BytesOfLiteral(A, [0x61]);
    BytesOfLiteral(A_COLON_12, [0x61, 0x3A, 0x31, 0x32]);
  }

  lemma HashesOfExamples()
    ensures HashOf(A) == 0x68B7BE43
    ensures HashOf(A_COLON_12) == 0x05A8790E
  {
    ExampleBytes();
    PlaylistReaches();
    TrackReaches();
    FinishCrc([0x61], 0x174841BC);
    FinishCrc([0x61, 0x3A, 0x31, 0x32], 0x7A5786F1);
    hide Crc, Reaches, BytesOf;
  }

  lemma SeedOfExample()
    ensures Seed(ItemKey(A, 12)) == A_COLON_12
  {
    DecimalDigits(1, 2);
    DecimalDigits(0, 1);
    hide Decimal;
    assert Digit(1) == '1' && Digit(2) == '2';
    assert Decimal(12) == ['1', '2'];
    assert A + [':'] + ['1', '2'] == A_COLON_12;
  }

  /** Playlist "a" starts probing at 0x68B7BE43, and its track number 12 at 0x05A8790E. */
  lemma StartsOfExamples()
    ensures HashOf(A) == 0x68B7BE43
    ensures ItemHash(ItemKey(A, 12)) == 0x05A8790E
  {
    hide HashOf, Seed;
    HashesOfExamples();
    SeedOfExample();
  }

  lemma FirstAnswer<K>(k: K, h: nat)
    requires h <= MAX_ID
    ensures Registry<K>.Registry(map[], map[]).Answer(h, k) == Some(Home(h))
  {
    var r: Registry<K> := Registry(map[], map[]);
    assert r.byId.Keys == {};
    PlaceIsFirst({}, h, Home(h));
  }

  /** Asked for first, a playlist gets the identifier at which it starts probing, or 1 instead of 0, and so does a
      track; nothing else is filed. */
  lemma FirstIdentifiers(t: Tables, playlist: Text, key: ItemKey)
    requires t == EMPTY
    ensures var id := Home(HashOf(playlist));
      t.RequestPlaylist(playlist) == t.(playlists := Registry(map[playlist := id], map[id := playlist]))
    ensures var id := Home(ItemHash(key));
      t.RequestItem(key) == Tables(t.playlists, Registry(map[key := id], map[id := key]), map[key.playlist := {id}])
  {
    hide HashOf, Seed;
    FirstAnswer(playlist, HashOf(playlist));
    FirstAnswer(key, ItemHash(key));
    var id := Home(ItemHash(key));
    assert t.items == Registry(map[], map[]);
    assert t.Group(key.playlist) + {id} == {id};
    assert t.items.Put(key, id) == Registry(map[key := id], map[id := key]);
  }
}
