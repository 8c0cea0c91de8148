/** The upload command (src/remoteControlCommands/uploadTrackCommand.cpp:78-162): writing a batch of
    files, renaming some by their tags, and adding them to a playlist. */
module UploadTrack {
  import opened Options
  import opened Texts
  import opened UploadNaming

  /** What writing a file does: succeeds, fails to open it, breaks off after some of the content, or is
      reported as done and then loses all but a beginning when the last buffer is written on closing. */
  datatype WriteResult = Written | NotOpened | BrokenOff(kept: nat) | LostOnClose(kept: nat)

  /** One uploaded part, and how the file system and the tag reader will treat it. */
  datatype Upload = Upload(
    fieldName: Text, fileName: Text, content: Text,
    write: WriteResult, artist: Text, title: Text, renames: bool)

  function ClientName(u: Upload): Text {
    if u.fileName == [] then u.fieldName else u.fileName
  }

  /** What reaches the disk once the file has been opened. */
  function Kept(u: Upload): Text {
    if (u.write.BrokenOff? || u.write.LostOnClose?) && u.write.kept < |u.content| then u.content[..u.write.kept]
    else u.content
  }

  /** The write counts as done. */
  predicate Reported(u: Upload) {
    u.write.Written? || u.write.LostOnClose?
  }

  /** The write counts as done, but not all of the content is there. */
  predicate Lost(u: Upload) {
    u.write.LostOnClose? && u.write.kept < |u.content|
  }

  /** The folder, the names handed on, and whether a write has failed. */
  datatype Batch = Batch(folder: Folder, saved: seq<Text>, failed: bool)

  /** The name under which a written file ends up. */
  ghost function FinalName(folder: Folder, u: Upload, target: Text): Text {
    var tag := TagName(u.artist, u.title);
    if '?' !in ClientName(u) || tag == [] || !u.renames then target
    else FreeName(folder, tag + Extension(target))
  }

  function Renamed(folder: Folder, from: Text, to: Text): Folder
    requires from in folder
  {
    (folder - {from})[to := folder[from]]
  }

  ghost function AfterOne(b: Batch, u: Upload): Batch {
    if b.failed then b
    else
      var target := FreeName(b.folder, ClientFileName(ClientName(u)));
      var written := b.folder[target := Kept(u)];
      match u.write
      case NotOpened => b.(failed := true)
      case BrokenOff(_) => Batch(written, b.saved, true)
      case _ =>
        var final := FinalName(written, u, target);
        Batch(Renamed(written, target, final), b.saved + [final], false)
  }

  ghost function AfterAll(b: Batch, us: seq<Upload>): Batch
    decreases |us|
  {
    if us == [] then b else AfterAll(AfterOne(b, us[0]), us[1..])
  }

  /** The low 32 bits of a number, as a signed number. */
  function Wrap32(n: int): (w: int)
    ensures -0x8000_0000 <= w < 0x8000_0000 && (w - n) % 0x1_0000_0000 == 0
  {
    (n + 0x8000_0000) % 0x1_0000_0000 - 0x8000_0000
  }

  /** The playlist a request names; None where std::stol throws. A long has 64 bits or, on Windows, 32. */
  function PlaylistId(text: Text, wideLong: bool): Option<int> {
    var n := ParseInt64(text);
    if n.None? || (!wideLong && Wrap32(n.value) != n.value) then None else Some(Wrap32(n.value))
  }

  /** Which playlists the player has. */
  type Playlists = int -> bool

  /** What adding the saved files to the playlist answers. */
  datatype AddResult = Added | InvalidPlaylist | AddFailed

  class UploadTrackCommand {
    var folder: Folder

    constructor (files: Folder)
      ensures folder == files
    {
      folder := files;
    }

    method WriteFile(target: Text, u: Upload) returns (ok: bool)
      modifies this
      ensures ok <==> Reported(u)
      ensures u.write.NotOpened? ==> folder == old(folder)
      ensures !u.write.NotOpened? ==> Kept(u) <= u.content && folder == old(folder)[target := Kept(u)]
      ensures ok && !Lost(u) ==> folder == old(folder)[target := u.content]
    {
      if u.write != NotOpened {
        folder := folder[target := Kept(u)];
      }
      ok := !u.write.NotOpened? && !u.write.BrokenOff?;
    }

    method RestoreName(u: Upload, saved: Text) returns (final: Text)
      requires saved in folder && '?' in ClientName(u)
      modifies this
      ensures final == FinalName(old(folder), u, saved)
      ensures folder == Renamed(old(folder), saved, final)
    {
      var tagName := TagName(u.artist, u.title);
      RenameToSelf(folder, saved);
      if tagName == [] {
        return saved;
      }
      var target, k := UniqueTarget(folder, tagName + Extension(saved));
      FreeNameIs(folder, tagName + Extension(saved), k);
      if !u.renames {
        return saved;
      }
      folder := (folder - {saved})[target := folder[saved]];
      final := target;
    }

    /** The loop over the uploaded parts; it breaks off at the first failed write. */
    method SaveAll(uploads: seq<Upload>) returns (saved: seq<Text>, ok: bool)
      modifies this
      ensures Batch(folder, saved, !ok) == AfterAll(Batch(old(folder), [], false), uploads)
    {
      hide Kept, FinalName, FreeName, Renamed, Candidate, ClientName, ClientFileName;
      saved := [];
      for i := 0 to |uploads|
        invariant AfterAll(Batch(folder, saved, false), uploads[i..]) ==
          AfterAll(Batch(old(folder), [], false), uploads)
      {
        ghost var before := Batch(folder, saved, false);
        var u := uploads[i];
        assert uploads[i..][1..] == uploads[i + 1..];
        var clientName := ClientName(u);
        var target, k := UniqueTarget(folder, ClientFileName(clientName));
        FreeNameIs(folder, ClientFileName(clientName), k);
        var written := WriteFile(target, u);
        if !written {
          FailedStays(AfterOne(before, u), uploads[i + 1..]);
          return saved, false;
        }
        RenameToSelf(folder, target);
        UnmarkedStays(folder, u, target);
        if '?' in clientName {
          target := RestoreName(u, target);
        }
        saved := saved + [target];
        assert Batch(folder, saved, false) == AfterOne(before, u);
      }
      ok := true;
    }

    /** The handler, with its status codes; no status where an exception leaves it. */
    method Handle(enabled: bool, matches: seq<Text>, uploads: seq<Upload>, wideLong: bool, playlists: Playlists,
                  added: AddResult)
      returns (status: Option<int>, saved: seq<Text>)
      modifies this
      ensures status.None? <==> enabled && matches != [] && uploads != [] && PlaylistId(matches[0], wideLong).None?
      ensures !Accepted(enabled, matches, uploads, wideLong, playlists) ==> folder == old(folder) && saved == []
      ensures status.Some? && !Accepted(enabled, matches, uploads, wideLong, playlists) ==>
        status.value == if !enabled then 403 else if matches == [] || uploads == [] then 400 else 404
      ensures Accepted(enabled, matches, uploads, wideLong, playlists) ==>
        var b := AfterAll(Batch(old(folder), [], false), uploads);
        && folder == b.folder && saved == b.saved
        && status == Some(if b.failed || added.AddFailed? then 500 else if added.InvalidPlaylist? then 404 else 200)
    {
      saved := [];
      if !enabled {
        return Some(403), saved;
      }
      if matches == [] || uploads == [] {
        return Some(400), saved;
      }
      var playlistId := PlaylistId(matches[0], wideLong);
      if playlistId.None? {
        return None, saved;
      }
      if !playlists(playlistId.value) {
        return Some(404), saved;
      }
      var ok;
      saved, ok := SaveAll(uploads);
      if !ok {
        return Some(500), saved;
      }
      status := match added case Added => Some(200) case InvalidPlaylist => Some(404) case AddFailed => Some(500);
    }
  }

  /** The request gets as far as writing files. */
  predicate Accepted(enabled: bool, matches: seq<Text>, uploads: seq<Upload>, wideLong: bool, playlists: Playlists) {
    && enabled && matches != [] && uploads != []
    && PlaylistId(matches[0], wideLong).Some? && playlists(PlaylistId(matches[0], wideLong).value)
  }

  /** An identifier names its own playlist. Where a long has 64 bits, every number of 64 bits names a playlist,
      and two of them name one exactly if they differ by a multiple of 2^32; where it has 32, no other number
      names any. */
  lemma NumbersNamePlaylists(m: int, n: int)
    requires MIN_INT64 <= m <= MAX_INT64 && MIN_INT64 <= n <= MAX_INT64
    ensures -0x8000_0000 <= n < 0x8000_0000 ==>
      PlaylistId(Decimal(n), true) == PlaylistId(Decimal(n), false) == Some(n)
    ensures PlaylistId(Decimal(m), true).Some?
    ensures PlaylistId(Decimal(m), true) == PlaylistId(Decimal(n), true) <==> (m - n) % 0x1_0000_0000 == 0
    ensures PlaylistId(Decimal(n), false).Some? <==> -0x8000_0000 <= n < 0x8000_0000
  {
    ParseDecimal(m);
    ParseDecimal(n);
    hide ParseInt64, Decimal;
    WrapsAlike(m, n);
  }

  lemma WrapsAlike(m: int, n: int)
    ensures Wrap32(m) == Wrap32(n) <==> (m - n) % 0x1_0000_0000 == 0
    ensures Wrap32(n) == n <==> -0x8000_0000 <= n < 0x8000_0000
  {}

  // ---------------------------------------------------------------- single steps

  lemma FreeNameIs(folder: Folder, name: Text, k: nat)
    requires FirstFree(folder, name, k)
    ensures FreeName(folder, name) == Candidate(name, k)
  {
    FirstFreeUnique(folder, name, k, FreeIndex(folder, name));
  }

  lemma UnmarkedStays(folder: Folder, u: Upload, target: Text)
    ensures '?' !in ClientName(u) ==> FinalName(folder, u, target) == target
  {}

  lemma RenameToSelf(folder: Folder, name: Text)
    requires name in folder
    ensures Renamed(folder, name, name) == folder
  {}

  lemma {:induction false} FailedStays(b: Batch, us: seq<Upload>)
    requires b.failed
    ensures AfterAll(b, us) == b
    decreases |us|
  {
    if us != [] {
      FailedStays(b, us[1..]);
    }
  }

  /** A renaming never gives the name the file has, even if its tags say that name: the search finds
      the file itself in the way. */
  lemma RenamedElsewhere(folder: Folder, u: Upload, target: Text)
    requires target in folder && '?' in ClientName(u) && TagName(u.artist, u.title) != [] && u.renames
    ensures FinalName(folder, u, target) != target
  {}

  /** A file with an ordinary name keeps it if it is free, and otherwise becomes number 2 if that is; the name is
      that of the form's field if the file has none. */
  lemma OrdinaryName(folder: Folder, u: Upload)
    requires Reported(u)
    requires var name := if u.fileName == [] then u.fieldName else u.fileName;
      && name != [] && name != DOT && name != DOTS && '/' !in name && '\0' !in name && '?' !in name
      && (name !in folder || Candidate(name, 2) !in folder)
    ensures var name := if u.fileName == [] then u.fieldName else u.fileName;
      AfterAll(Batch(folder, [], false), [u]).saved == [if name !in folder then name else Candidate(name, 2)]
  {
    var name := if u.fileName == [] then u.fieldName else u.fileName;
    SanitizePlain(name);
    assert name == Candidate(name, 1);
    assert Candidate(name, 2) != DOT && Candidate(name, 2) != DOTS by {
      NumberedName(name, 2);
    }
    hide Candidate, Kept;
    FreeNameIs(folder, name, if name !in folder then 1 else 2);
    assert [u][1..] == [];
    assert [] + [FreeName(folder, name)] == [FreeName(folder, name)];
  }

  lemma SecondName(stem: Text, ext: Text)
    requires stem != [] && stem + ['.'] + ext != DOTS && '.' !in ext
    ensures Candidate(stem + ['.'] + ext, 2) == stem + [' ', '(', '2', ')', '.'] + ext
  {
    DecimalDigits(0, 2);
    assert Digit(2) == '2';
    hide Candidate, Decimal;
    NumberedBeforeExtension(stem, ext, 2);
    assert stem + [' ', '('] + ['2'] + [')'] + (['.'] + ext) == stem + [' ', '(', '2', ')', '.'] + ext;
  }

  /** So a second song.mp3 becomes "song (2).mp3". */
  lemma SecondUpload(folder: Folder, u: Upload, stem: Text, ext: Text)
    requires Reported(u) && u.fileName == stem + ['.'] + ext && u.fileName in folder
    requires stem != [] && u.fileName != DOTS && '.' !in ext
    requires '/' !in u.fileName && '\0' !in u.fileName && '?' !in u.fileName
    requires stem + [' ', '(', '2', ')', '.'] + ext !in folder
    ensures AfterAll(Batch(folder, [], false), [u]).saved == [stem + [' ', '(', '2', ')', '.'] + ext]
  {
    assert u.fileName != [] && u.fileName != DOT by {
      assert |u.fileName| >= 2;
    }
    hide AfterAll, Candidate, Decimal, Reported;
    SecondName(stem, ext);
    OrdinaryName(folder, u);
  }

  /** A client name with a question mark is replaced by the tags' if there is a title and the renaming works, and
      kept otherwise. */
  lemma RestoredName(folder: Folder, u: Upload)
    requires Reported(u) && '?' in ClientName(u)
    ensures var target := FreeName(folder, ClientFileName(ClientName(u)));
      var written := folder[target := Kept(u)];
      AfterAll(Batch(folder, [], false), [u]).saved ==
        [if u.title != [] && u.renames then FreeName(written, TagName(u.artist, u.title) + Extension(target))
         else target]
  {
    assert TagName(u.artist, u.title) == [] <==> u.title == [];
    hide FreeName, Candidate, Kept, ClientFileName, TagName, Extension, Renamed;
    assert [u][1..] == [];
    var after := AfterOne(Batch(folder, [], false), u);
    assert AfterAll(after, []) == after;
    assert forall name: Text :: [] + [name] == [name];
  }

  // ---------------------------------------------------------------- conservation

  /** The old files are as they were. */
  ghost predicate KeepsOld(before: Folder, folder: Folder) {
    forall k :: k in before ==> k in folder && folder[k] == before[k]
  }

  /** The saved names are new, distinct, and hold what has reached the disk. */
  ghost predicate SavedWell(before: Folder, b: Batch, us: seq<Upload>) {
    && |b.saved| <= |us|
    && (forall i :: 0 <= i < |b.saved| ==>
          && b.saved[i] !in before && b.saved[i] in b.folder && b.saved[i] != ['.'] && b.saved[i] != ['.', '.']
          && b.folder[b.saved[i]] == Kept(us[i]) && Reported(us[i]))
    && (forall i, j :: 0 <= i < j < |b.saved| ==> b.saved[i] != b.saved[j])
  }

  predicate Extra(before: Folder, b: Batch, name: Text) {
    name in b.folder && name !in before && name !in b.saved
  }

  /** Nothing else is in the folder, except that a failed write may have left one file of its own. */
  ghost predicate NothingElse(before: Folder, b: Batch, us: seq<Upload>) {
    && (!b.failed ==> |b.saved| == |us| && forall k :: !Extra(before, b, k))
    && (b.failed ==> |b.saved| < |us| && !Reported(us[|b.saved|]))
    && (forall k, l :: Extra(before, b, k) && Extra(before, b, l) ==> k == l)
  }

  ghost predicate Conserved(before: Folder, b: Batch, us: seq<Upload>) {
    KeepsOld(before, b.folder) && SavedWell(before, b, us) && NothingElse(before, b, us)
  }

  /** A file under a name not in the folder. */
  lemma AddConserves(before: Folder, b: Batch, us: seq<Upload>, u: Upload, name: Text)
    requires Conserved(before, b, us) && !b.failed && Reported(u)
    requires name !in b.folder && name != ['.'] && name != ['.', '.']
    ensures Conserved(before, Batch(b.folder[name := Kept(u)], b.saved + [name], false), us + [u])
  {
    var b' := Batch(b.folder[name := Kept(u)], b.saved + [name], false);
    assert name !in before && name !in b.saved;
    forall k
      ensures !Extra(before, b', k)
    {
      assert !Extra(before, b, k);
      assert name in b'.saved;
      assert forall m :: m in b.saved ==> m in b'.saved;
    }
  }

  lemma FailConserves(before: Folder, b: Batch, us: seq<Upload>, u: Upload, folder: Folder, name: Text)
    requires Conserved(before, b, us) && !b.failed && !Reported(u)
    requires name !in b.folder
    requires folder == b.folder || folder == b.folder[name := Kept(u)]
    ensures Conserved(before, Batch(folder, b.saved, true), us + [u])
  {
    var b' := Batch(folder, b.saved, true);
    forall k
      ensures Extra(before, b', k) ==> k == name
    {
      assert !Extra(before, b, k);
    }
  }

  /** Writing under a fresh name and renaming to a fresh name is writing under the latter. */
  lemma WriteThenRename(folder: Folder, target: Text, content: Text, final: Text)
    requires target !in folder
    requires final == target || final !in folder[target := content]
    ensures Renamed(folder[target := content], target, final) == folder[final := content]
    ensures final !in folder
  {}

  lemma OneConserved(before: Folder, b: Batch, us: seq<Upload>, u: Upload)
    requires Conserved(before, b, us) && !b.failed
    ensures Conserved(before, AfterOne(b, u), us + [u])
  {
    hide Conserved, FreeName, Renamed;
    var target := FreeName(b.folder, ClientFileName(ClientName(u)));
    match u.write
    case NotOpened => FailConserves(before, b, us, u, b.folder, target);
    case BrokenOff(_) => FailConserves(before, b, us, u, b.folder[target := Kept(u)], target);
    case _ =>
      var final := FinalName(b.folder[target := Kept(u)], u, target);
      WriteThenRename(b.folder, target, Kept(u), final);
      AddConserves(before, b, us, u, final);
  }

  lemma FailedConserved(before: Folder, b: Batch, done: seq<Upload>, us: seq<Upload>)
    requires Conserved(before, b, done) && b.failed
    ensures Conserved(before, b, done + us)
  {
    assert forall i :: 0 <= i < |done| ==> (done + us)[i] == done[i];
  }

  lemma {:induction false} AllConserved(before: Folder, b: Batch, done: seq<Upload>, us: seq<Upload>)
    requires Conserved(before, b, done)
    ensures Conserved(before, AfterAll(b, us), done + us)
    decreases |us|
  {
    hide Conserved, AfterOne;
    if us == [] {
      assert done + us == done;
    } else if b.failed {
      FailedStays(b, us);
      FailedConserved(before, b, done, us);
    } else {
      OneConserved(before, b, done, us[0]);
      AllConserved(before, AfterOne(b, us[0]), done + [us[0]], us[1..]);
      assert done + [us[0]] + us[1..] == done + us;
    }
  }

  lemma KeptExactly(u: Upload)
    requires Reported(u)
    ensures Kept(u) <= u.content && (Kept(u) == u.content <==> !Lost(u))
  {
    if Lost(u) {
      assert |Kept(u)| < |u.content|;
    }
  }

  /** A batch never overwrites or drops a file that was there, whatever fails. The names it hands on
      are new and distinct, and each holds a beginning of what was uploaded, and all of it exactly if its
      write was not lost on closing; they are as many as there were uploads before the first write
      reported as failed, and nothing else is left but perhaps what that write left. */
  lemma BatchConserves(before: Folder, us: seq<Upload>)
    ensures var b := AfterAll(Batch(before, [], false), us);
      && (forall k :: k in before ==> k in b.folder && b.folder[k] == before[k])
      && |b.saved| <= |us|
      && (forall i :: 0 <= i < |b.saved| ==>
            && b.saved[i] !in before && b.saved[i] in b.folder && b.saved[i] != ['.'] && b.saved[i] != ['.', '.']
            && Reported(us[i])
            && b.folder[b.saved[i]] <= us[i].content
            && (b.folder[b.saved[i]] == us[i].content <==> !Lost(us[i])))
      && (forall i, j :: 0 <= i < j < |b.saved| ==> b.saved[i] != b.saved[j])
      && (if b.failed then |b.saved| < |us| && !Reported(us[|b.saved|]) else |b.saved| == |us|)
      && (forall k, l :: Extra(before, b, k) && Extra(before, b, l) ==> k == l)
      && (!b.failed ==> b.folder.Keys == before.Keys + (set k | k in b.saved))
  {
    hide AfterAll, Kept, Lost, Reported;
    AllConserved(before, Batch(before, [], false), [], us);
    assert [] + us == us;
    var b := AfterAll(Batch(before, [], false), us);
    forall i | 0 <= i < |b.saved|
      ensures b.folder[b.saved[i]] <= us[i].content
      ensures b.folder[b.saved[i]] == us[i].content <==> !Lost(us[i])
    {
      KeptExactly(us[i]);
    }
    if !b.failed {
      forall k
        ensures k in b.folder <==> k in before || k in b.saved
      {
        assert !Extra(before, b, k);
      }
    }
  }
}
