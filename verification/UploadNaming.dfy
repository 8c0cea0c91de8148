/** Names for uploaded files (src/remoteControlCommands/uploadTrackCommand.cpp:36-76 and 84-108):
    what a client's name becomes, and how a name not yet taken in the folder is found. */
module UploadNaming {
  import opened Options
  import opened Sets
  import opened Texts

  /** The upload folder: contents by file name. */
  type Folder = map<Text, Text>

  const DOT: Text := ['.']
  const DOTS: Text := ['.', '.']
  const TRACK: Text := ['t', 'r', 'a', 'c', 'k']

  // ---------------------------------------------------------------- names

  /** Path separators and zero bytes become underscores. */
  function Sanitize(name: Text): (s: Text)
    ensures |s| == |name|
    ensures forall i :: 0 <= i < |s| ==> s[i] == if name[i] == '/' || name[i] == '\0' then '_' else name[i]
  {
    if name == [] then [] else [if name[0] == '/' || name[0] == '\0' then '_' else name[0]] + Sanitize(name[1..])
  }

  function ClientFileName(clientName: Text): (name: Text)
    ensures name != [] && name != DOT && name != DOTS && '/' !in name
  {
    var name := Sanitize(clientName);
    if name == [] || name == DOT || name == DOTS then TRACK else name
  }

  /** Artist and title as a name; empty without a title. */
  function TagName(artist: Text, title: Text): Text {
    if title == [] then [] else Sanitize(if artist == [] then title else artist + [' ', '-', ' '] + title)
  }

  /** The position of the last period. */
  function LastPeriod(name: Text): (p: Option<nat>)
    ensures p.Some? ==> p.value < |name| && name[p.value] == '.' && '.' !in name[p.value + 1..]
    ensures p.None? ==> '.' !in name
  {
    if name == [] then None
    else
      var p := LastPeriod(name[1..]);
      if p.Some? then
        assert name[p.value + 2..] == name[1..][p.value + 1..];
        Some(p.value + 1)
      else if name[0] == '.' then Some(0)
      else None
  }

  /** Where the extension begins: at the last period, unless the name begins with it. */
  function ExtensionStart(name: Text): (p: nat)
    ensures p <= |name|
  {
    var p := LastPeriod(name);
    if p.None? || p.value == 0 || name == DOTS then |name| else p.value
  }

  function Stem(name: Text): Text { name[..ExtensionStart(name)] }

  function Extension(name: Text): Text { name[ExtensionStart(name)..] }

  /** The n-th name tried: the name itself, then with (2), (3) and so on before the extension. */
  function Candidate(name: Text, n: nat): Text
    requires n >= 1
  {
    if n == 1 then name else Stem(name) + [' ', '('] + Decimal(n) + [')'] + Extension(name)
  }

  /** Where names are cut: before the last period, unless nothing but that period begins the name, or it is "..". */
  lemma CutAtLastPeriod(stem: Text, ext: Text)
    requires '.' !in ext
    ensures stem != [] && stem + ['.'] + ext != DOTS ==>
      Stem(stem + ['.'] + ext) == stem && Extension(stem + ['.'] + ext) == ['.'] + ext
    ensures Stem(['.'] + ext) == ['.'] + ext && Extension(['.'] + ext) == []
    ensures Stem(ext) == ext && Extension(ext) == []
    ensures Stem(DOTS) == DOTS && Extension(DOTS) == []
  {
    LastPeriodIs(stem, ext);
    LastPeriodIs([], ext);
    NoPeriod(ext);
    assert [] + ['.'] + ext == ['.'] + ext;
    hide LastPeriod;
  }

  lemma LastPeriodIs(stem: Text, ext: Text)
    requires '.' !in ext
    ensures LastPeriod(stem + ['.'] + ext) == Some(|stem|)
  {
    var name := stem + ['.'] + ext;
    assert name[|stem|] == '.' && name[|stem| + 1..] == ext;
    assert forall i :: |stem| < i < |name| ==> name[i] == ext[i - |stem| - 1];
    hide LastPeriod;
  }

  lemma NoPeriod(name: Text)
    requires '.' !in name
    ensures LastPeriod(name) == None
  {}

  /** From the second name tried on, the number stands in parentheses before the extension. */
  lemma NumberedBeforeExtension(stem: Text, ext: Text, n: nat)
    requires '.' !in ext && stem != [] && stem + ['.'] + ext != DOTS && n >= 2
    ensures Candidate(stem + ['.'] + ext, 1) == stem + ['.'] + ext
    ensures Candidate(stem + ['.'] + ext, n) == stem + [' ', '('] + Decimal(n) + [')'] + (['.'] + ext)
  {
    hide Decimal, Stem, Extension;
    CutAtLastPeriod(stem, ext);
  }

  lemma SanitizePlain(name: Text)
    requires '/' !in name && '\0' !in name
    ensures Sanitize(name) == name
  {
    assert forall i :: 0 <= i < |name| ==> name[i] in name;
  }

  /** Names made of tags, and the names that replace unusable ones. */
  lemma NamesMade(artist: Text, title: Text, name: Text)
    ensures TagName(artist, []) == []
    ensures '/' !in title && '\0' !in title ==> TagName([], title) == title
    ensures '/' !in artist + title && '\0' !in artist + title && artist != [] && title != [] ==>
      TagName(artist, title) == artist + [' ', '-', ' '] + title
    ensures ClientFileName([]) == ClientFileName(['.']) == ClientFileName(['.', '.']) == ['t', 'r', 'a', 'c', 'k']
    ensures name != [] && name != ['.'] && name != ['.', '.'] ==> ClientFileName(name) == Sanitize(name)
  {
    if '/' !in title && '\0' !in title {
      SanitizePlain(title);
    }
    if '/' !in artist + title && '\0' !in artist + title {
      assert forall c: Byte :: c in artist + title <==> c in artist || c in title;
      SanitizePlain(artist + [' ', '-', ' '] + title);
    }
    SanitizePlain(DOT);
    SanitizePlain(DOTS);
    SanitizedKind(name);
  }

  lemma SanitizedKind(name: Text)
    ensures name != [] && name != DOT && name != DOTS ==>
      Sanitize(name) != [] && Sanitize(name) != DOT && Sanitize(name) != DOTS
  {
    var s := Sanitize(name);
    if s == DOT {
      assert s[0] == '.' && name[0] == '.';
      assert name == DOT;
    }
    if s == DOTS {
      assert s[0] == '.' && s[1] == '.' && name[0] == '.' && name[1] == '.';
      assert name == DOTS;
    }
  }

  lemma SameMiddle(before: Text, a: Text, b: Text, after: Text)
    requires before + a + after == before + b + after
    ensures a == b
  {
    var x, y := before + a + after, before + b + after;
    assert |x| == |y|;
    assert a == x[|before|..|before| + |a|] && b == y[|before|..|before| + |b|];
  }

  lemma NumberedName(name: Text, n: nat)
    requires n >= 2
    ensures Candidate(name, n) == (Stem(name) + [' ', '(']) + Decimal(n) + ([')'] + Extension(name))
    ensures |Candidate(name, n)| > |name|
  {
    hide Decimal, ExtensionStart;
    assert name == Stem(name) + Extension(name);
  }

  lemma CandidatesDiffer(name: Text, m: nat, n: nat)
    requires 1 <= m < n
    ensures Candidate(name, m) != Candidate(name, n)
  {
    assert Candidate(name, 1) == name;
    hide Candidate, Decimal, Stem, Extension;
    NumberedName(name, n);
    if m > 1 {
      NumberedName(name, m);
      if Candidate(name, m) == Candidate(name, n) {
        SameMiddle(Stem(name) + [' ', '('], Decimal(m), Decimal(n), [')'] + Extension(name));
        DecimalInjective(m, n);
      }
    }
  }

  // ---------------------------------------------------------------- the first free name

  /** The directory itself and its parent always exist. */
  predicate Exists(folder: Folder, name: Text) {
    name in folder || name == DOT || name == DOTS
  }

  /** The k-th candidate is the first that does not exist. */
  predicate FirstFree(folder: Folder, name: Text, k: nat) {
    && k >= 1
    && !Exists(folder, Candidate(name, k))
    && forall j :: 1 <= j < k ==> Exists(folder, Candidate(name, j))
  }

  function Candidates(name: Text, k: nat): (s: set<Text>)
    ensures forall x :: x in s <==> exists j :: 1 <= j <= k && Candidate(name, j) == x
    decreases k
  {
    if k == 0 then {} else Candidates(name, k - 1) + {Candidate(name, k)}
  }

  lemma {:induction false} CandidatesSize(name: Text, k: nat)
    ensures |Candidates(name, k)| == k
    decreases k
  {
    if k > 0 {
      CandidatesSize(name, k - 1);
      if Candidate(name, k) in Candidates(name, k - 1) {
        var j :| 1 <= j <= k - 1 && Candidate(name, j) == Candidate(name, k);
        CandidatesDiffer(name, j, k);
      }
    }
  }

  /** Only so many candidates can exist: no more than there are files, and the two fixed entries. */
  lemma ExistingCandidates(folder: Folder, name: Text, k: nat)
    requires forall j :: 1 <= j <= k ==> Exists(folder, Candidate(name, j))
    ensures k <= |folder| + 2
  {
    CandidatesSize(name, k);
    SubsetSize(Candidates(name, k), folder.Keys + {DOT, DOTS});
    assert |folder.Keys + {DOT, DOTS}| <= |folder.Keys| + 2;
  }

  /** A name that is neither of the fixed entries is free within as many candidates as there are
      files, and one. */
  lemma ExistingCandidatesOfFile(folder: Folder, name: Text, k: nat)
    requires name != DOT && name != DOTS
    requires forall j :: 1 <= j <= k ==> Exists(folder, Candidate(name, j))
    ensures k <= |folder|
  {
    forall j | 1 <= j <= k
      ensures Candidate(name, j) in folder
    {
      assert j > 1 ==> |Candidate(name, j)| >= 4;
    }
    CandidatesSize(name, k);
    SubsetSize(Candidates(name, k), folder.Keys);
  }

  /** The search for a free name ends, and where. */
  method UniqueTarget(folder: Folder, name: Text) returns (target: Text, ghost k: nat)
    ensures FirstFree(folder, name, k) && target == Candidate(name, k)
    ensures k <= |folder| + 3
    ensures name != DOT && name != DOTS ==> k <= |folder| + 1
    ensures !Exists(folder, target)
  {
    hide Stem, Extension, Decimal;
    target := name;
    k := 1;
    var n := 2;
    while target in folder || target == DOT || target == DOTS
      invariant n == k + 1 && k >= 1 && target == Candidate(name, k)
      invariant forall j :: 1 <= j < k ==> Exists(folder, Candidate(name, j))
      decreases |folder| + 3 - k
    {
      ExistingCandidates(folder, name, k);
      target := Stem(name) + [' ', '('] + Decimal(n) + [')'] + Extension(name);
      k := n;
      n := n + 1;
    }
    hide Candidate;
    ExistingCandidates(folder, name, k - 1);
    if name != DOT && name != DOTS {
      ExistingCandidatesOfFile(folder, name, k - 1);
    }
  }

  lemma FirstFreeUnique(folder: Folder, name: Text, k: nat, l: nat)
    requires FirstFree(folder, name, k) && FirstFree(folder, name, l)
    ensures k == l
  {}

  lemma {:induction false} FirstFreeFrom(folder: Folder, name: Text, n: nat) returns (k: nat)
    requires n >= 1 && forall j :: 1 <= j < n ==> Exists(folder, Candidate(name, j))
    ensures FirstFree(folder, name, k)
    decreases |folder| + 3 - n
  {
    if Exists(folder, Candidate(name, n)) {
      ExistingCandidates(folder, name, n);
      k := FirstFreeFrom(folder, name, n + 1);
    } else {
      k := n;
    }
  }

  /** The name the search ends with. */
  ghost function FreeName(folder: Folder, name: Text): (target: Text)
    ensures exists k :: FirstFree(folder, name, k) && target == Candidate(name, k)
    ensures !Exists(folder, target)
  {
    var k := FreeIndex(folder, name);
    Candidate(name, k)
  }

  ghost function FreeIndex(folder: Folder, name: Text): (k: nat)
    ensures FirstFree(folder, name, k)
  {
    assert exists k :: FirstFree(folder, name, k) by {
      var k := FirstFreeFrom(folder, name, 1);
    }
    var k :| FirstFree(folder, name, k);
    k
  }
}
