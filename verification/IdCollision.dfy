/** A collision of playlist identifiers: stability across restarts has exceptions. */
module IdCollision {
  import opened Crc32
  import opened IdTables
  import opened Options
  import opened Probing
  import opened Texts

  lemma {:induction false} BytesOfLiteral(s: Text, b: seq<bv8>)
    requires |s| == |b| && forall i :: 0 <= i < |s| ==> s[i] as int as bv8 == b[i]
    ensures BytesOf(s) == b
  {
    if s != [] {
      BytesOfLiteral(s[1..], b[1..]);
      assert b == [b[0]] + b[1..];
    }
  }

  /** Feeding the data takes the register from one value to another. */
  predicate Reaches(c: bv32, data: seq<bv8>, end: bv32) {
    FeedBits(c, Bits(data)) == end
  }

  lemma ReachesEnd(c: bv32)
    ensures Reaches(c, [], c)
  {}

  lemma Prepend(b: bv8, rest: seq<bv8>, c: bv32, next: bv32, end: bv32) returns (data: seq<bv8>)
    requires ByteStep(c, b) == next && Reaches(next, rest, end)
    ensures data == [b] + rest && Reaches(c, data, end)
  {
    data := [b] + rest;
    assert data[0] == b && data[1..] == rest;
    hide ByteStep, FeedBits, BitsOfByte;
    ByteStepIsEightBits(c, b);
    FeedBitsConcat(c, BitsOfByte(b), Bits(rest));
  }

  lemma FinishCrc(data: seq<bv8>, end: bv32)
    requires Reaches(0xFFFF_FFFF, data, end)
    ensures Crc(0, data) == Xor(end, ALL_ONES)
  {
    hide FeedBits, Bits;
  }

  lemma StepsKogel()
    ensures ByteStep(0xFFFFFFFF, 0x6B) == 0xF79DA8A2
    ensures ByteStep(0xF79DA8A2, 0x6F) == 0xE52223A5
    ensures ByteStep(0xE52223A5, 0x67) == 0x758F81BF
    ensures ByteStep(0x758F81BF, 0x65) == 0x6673B44B
    ensures ByteStep(0x6673B44B, 0x6C) == 0xA56CC6DF
  {}

  lemma KogelReaches()
    ensures Reaches(0xFFFFFFFF, [0x6B, 0x6F, 0x67, 0x65, 0x6C], 0xA56CC6DF)
  {
    StepsKogel();
    var r0: seq<bv8> := [];
    ReachesEnd(0xA56CC6DF);
    hide ByteStep, Reaches;
    var r1 := Prepend(0x6C, r0, 0x6673B44B, 0xA56CC6DF, 0xA56CC6DF);
    var r2 := Prepend(0x65, r1, 0x758F81BF, 0x6673B44B, 0xA56CC6DF);
    var r3 := Prepend(0x67, r2, 0xE52223A5, 0x758F81BF, 0xA56CC6DF);
    var r4 := Prepend(0x6F, r3, 0xF79DA8A2, 0xE52223A5, 0xA56CC6DF);
    var r5 := Prepend(0x6B, r4, 0xFFFFFFFF, 0xF79DA8A2, 0xA56CC6DF);
    assert r5 == [0x6B, 0x6F, 0x67, 0x65, 0x6C];
  }

  lemma KogelBytes()
    ensures BytesOf("kogel") == [0x6B, 0x6F, 0x67, 0x65, 0x6C]
  {
    BytesOfLiteral("kogel", [0x6B, 0x6F, 0x67, 0x65, 0x6C]);
  }

  lemma CrcKogel()
    ensures Crc(0, BytesOf("kogel")) == 0x5A933920
  {
    KogelBytes();
    KogelReaches();
    FinishCrc([0x6B, 0x6F, 0x67, 0x65, 0x6C], 0xA56CC6DF);
    hide Crc, Reaches, BytesOf;
  }

  lemma StepsVejica()
    ensures ByteStep(0xFFFFFFFF, 0x76) == 0x949BC47B
    ensures ByteStep(0x949BC47B, 0x65) == 0xFA9BA6A7
    ensures ByteStep(0xFA9BA6A7, 0x6A) == 0xE52F25AB
    ensures ByteStep(0xE52F25AB, 0x69) == 0x758F8CB9
    ensures ByteStep(0x758F8CB9, 0x63) == 0x6673B446
    ensures ByteStep(0x6673B446, 0x61) == 0xA56CC6DF
  {}

  lemma VejicaReaches()
    ensures Reaches(0xFFFFFFFF, [0x76, 0x65, 0x6A, 0x69, 0x63, 0x61], 0xA56CC6DF)
  {
    StepsVejica();
    var r0: seq<bv8> := [];
    ReachesEnd(0xA56CC6DF);
    hide ByteStep, Reaches;
    var r1 := Prepend(0x61, r0, 0x6673B446, 0xA56CC6DF, 0xA56CC6DF);
    var r2 := Prepend(0x63, r1, 0x758F8CB9, 0x6673B446, 0xA56CC6DF);
    var r3 := Prepend(0x69, r2, 0xE52F25AB, 0x758F8CB9, 0xA56CC6DF);
    var r4 := Prepend(0x6A, r3, 0xFA9BA6A7, 0xE52F25AB, 0xA56CC6DF);
    var r5 := Prepend(0x65, r4, 0x949BC47B, 0xFA9BA6A7, 0xA56CC6DF);
    var r6 := Prepend(0x76, r5, 0xFFFFFFFF, 0x949BC47B, 0xA56CC6DF);
    assert r6 == [0x76, 0x65, 0x6A, 0x69, 0x63, 0x61];
  }

  lemma VejicaBytes()
    ensures BytesOf("vejica") == [0x76, 0x65, 0x6A, 0x69, 0x63, 0x61]
  {
    BytesOfLiteral("vejica", [0x76, 0x65, 0x6A, 0x69, 0x63, 0x61]);
  }

  lemma CrcVejica()
    ensures Crc(0, BytesOf("vejica")) == 0x5A933920
  {
    VejicaBytes();
    VejicaReaches();
    FinishCrc([0x76, 0x65, 0x6A, 0x69, 0x63, 0x61], 0xA56CC6DF);
    hide Crc, Reaches, BytesOf;
  }

  const KOGEL: Text := "kogel"
  const VEJICA: Text := "vejica"

  lemma SameHash()
    ensures HashOf(KOGEL) == HashOf(VEJICA) == 0x5A933920
  {
    CrcKogel();
    CrcVejica();
    hide Crc, BytesOf;
  }

  /** Two playlists whose identifiers depend on which of them a client asks for first after a restart. */
  lemma IdentifierDependsOnOrder()
    ensures
      var a := ServeAll(Fresh<Text>(), HashOf, [KOGEL, VEJICA]);
      var b := ServeAll(Fresh<Text>(), HashOf, [VEJICA, KOGEL]);
      && a.Some? && b.Some?
      && KOGEL in a.value.byKey && KOGEL in b.value.byKey
      && a.value.byKey[KOGEL] != b.value.byKey[KOGEL]
  {
    SameHash();
    hide HashOf;
    Second(KOGEL, VEJICA);
    Second(VEJICA, KOGEL);
    FirstAtHome(HashOf, [KOGEL, VEJICA]);
    FirstAtHome(HashOf, [VEJICA, KOGEL]);
  }

  /** Of two colliding keys both are served, the second elsewhere. */
  lemma Second(a: Text, b: Text)
    requires a != b && HashOf(a) == HashOf(b) && 0 < HashOf(a) < MAX_ID - 2
    ensures var r := ServeAll(Fresh<Text>(), HashOf, [a, b]);
      r.Some? && r.value.Valid() && a in r.value.byKey && b in r.value.byKey
  {
    hide HashOf;
    var r: Registry<Text> := Fresh();
    var h := HashOf(a);
    assert r.byId.Keys == {};
    ProbeSucceeds(r.byId.Keys, h);
    RequestServes(r, h, a);
    var r' := r.AfterRequest(h, a);
    assert r'.byId.Keys == {r.Answer(h, a).value};
    ProbeSucceeds(r'.byId.Keys, h);
    RequestServes(r', h, b);
    var ks: seq<Text> := [a, b];
    assert ks[1..] == [b] && [b][1..] == [];
    var r'' := r'.AfterRequest(h, b);
    assert ServeAll(r', HashOf, [b]) == ServeAll(r'', HashOf, []) == Some(r'');
  }
}
