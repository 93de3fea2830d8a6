/** Concrete inputs on which a session falls short of the simple view: one project with
    one file, and one other working copy. */
module Cases {
  import opened Wrappers
  import opened Paths
  import opened Text
  import opened Rewrite
  import opened Applier
  import opened Session
  import opened Sync
  import Abandon
  import Protocol

  const HOME: Path := [ROOT, "p"]
  const COPY: Path := [ROOT, "w"]
  const FILE: Path := ["a.rs"]
  const HOME_FILE: Path := [ROOT, "p", "a.rs"]
  const COPY_FILE: Path := [ROOT, "w", "a.rs"]
  const LANGS := [("rs", "rust")]

  const NEW := NewState(HOME, LANGS)

  /** The session with the file open, holding `text`. */
  const OPEN_FILE := NEW.(openDocs := {HOME_FILE}, trace := [DidOpen(HOME_FILE, 1, "")],
                          server := Server(map[HOME_FILE := Document(1, "")], true))

  lemma PathsAre()
    ensures IsRoot(HOME) && !IsAbsolute(FILE)
    ensures Join(HOME, FILE) == Resolve(FILE, HOME) == HOME_FILE && Join(COPY, FILE) == Resolve(FILE, COPY) == COPY_FILE
    ensures HOME_FILE != COPY_FILE && HOME != COPY && StartsWith(HOME_FILE, HOME)
  {
    assert "a.rs"[0] != ROOT[0] && "p"[0] != ROOT[0] && "p"[0] != "w"[0];
    assert HOME_FILE[..2] == HOME;
    assert HOME_FILE[1] != COPY_FILE[1] && HOME[1] != COPY[1];
  }

  lemma FileIsIndexed()
    ensures Indexes(LANGS, FILE)
  {
    assert LastDot("a.rs", 2) == 1 && LastDot("a.rs", 3) == 1 && LastDot("a.rs", 4) == 1;
    assert "a.rs"[2..] == "rs";
    assert "a.rs" != ROOT && Extension(FILE) == Some("rs");
    assert LANGS[0].0 == "rs";
  }

  lemma OpenFileIs(disk: Disk)
    requires HOME_FILE in disk && disk[HOME_FILE] == ""
    ensures EnsureOpen(NEW, disk, FILE) == OPEN_FILE && Clean(OPEN_FILE, disk)
  {
    PathsAre();
    assert NEW.trace + [DidOpen(HOME_FILE, 1, "")] == OPEN_FILE.trace;
    assert NEW.server.docs[HOME_FILE := Document(1, "")] == OPEN_FILE.server.docs;
    assert OPEN_FILE.server.docs.Keys == {HOME_FILE};
  }

  // ---------------------------------------------------------------- edits that are not synced

  const OTHER: Path := ["b.rs"]
  const THIRD: Path := ["c.rs"]

  lemma OtherPaths()
    ensures Resolve(OTHER, HOME) == [ROOT, "p", "b.rs"] && Resolve(THIRD, HOME) == [ROOT, "p", "c.rs"]
    ensures [ROOT, "p", "b.rs"] != HOME_FILE && [ROOT, "p", "c.rs"] != HOME_FILE
  {
    assert "b.rs"[0] != ROOT[0] && "c.rs"[0] != ROOT[0];
    assert "b.rs"[0] != "a.rs"[0] && "c.rs"[0] != "a.rs"[0];
    assert [ROOT, "p", "b.rs"][2] != HOME_FILE[2] && [ROOT, "p", "c.rs"][2] != HOME_FILE[2];
  }

  lemma OneOp(disk: Disk, op: FileOperation, root: Path)
    ensures RunOp(disk, op, root).Err? ==> RunOps(disk, [op], root) == (disk, Err(RunOp(disk, op, root).error))
    ensures RunOp(disk, op, root).Ok? ==> RunOps(disk, [op], root).1.Ok?
  {
    assert [op][..0] == [] && RunOps(disk, [], root) == (disk, Ok([]));
  }

  /** The open file renamed, with no text edit to it: the edit succeeds and is synced, and
      the session holds a document whose file is gone. */
  lemma RenameLeavesStaleDocument()
    ensures var disk: Disk := map[HOME_FILE := ""];
      var edit := WorkspaceEdit(Utf16, [], [Rename(FILE, OTHER)]);
      var (after, result) := Applied(disk, edit, HOME);
      Clean(OPEN_FILE, disk) && result.Ok? && !Clean(SyncChanged(OPEN_FILE, result.value), after)
  {
    var disk: Disk := map[HOME_FILE := ""];
    var op := Rename(FILE, OTHER);
    var edit := WorkspaceEdit(Utf16, [], [op]);
    PathsAre();
    OtherPaths();
    OpenFileIs(disk);
    PlanWhenAllRewrite(disk, edit, HOME);
    assert Writes(disk, edit, HOME) == [];
    OneOp(disk, op, HOME);
    assert RenamedFrom(edit.fileOps, HOME, HOME_FILE) by {
      assert edit.fileOps[0] == op;
    }
    assert !SourcesReported(OPEN_FILE, disk, edit);
    SyncKeepsCleanExactly(OPEN_FILE, disk, edit);
  }

  const INSERT_X := TextEdit(Range(Position(0, 0), Position(0, 0)), "x")

  lemma InsertsX()
    ensures RewriteText("", [INSERT_X], Utf16) == Ok("x")
  {
    var at := Position(0, 0);
    assert LineEnd("", 0) == 0 && ContentEnd("", 0) == 0;
    assert ResolveIndex("", at, Utf16) == Some(0);
    GuardedSelectionIsReplaced("", INSERT_X, Utf16);
    var pre, post :| "" == pre + CoveredText("", INSERT_X.range, Utf16).value + post
      && RewriteText("", [INSERT_X], Utf16) == Ok(pre + INSERT_X.newText + post) && |pre| == 0;
    assert pre == "" && post == "";
    assert pre + INSERT_X.newText + post == "x";
  }

  /** An edit that does not keep the open file's text leaves the view stale. */
  lemma LosingTheTextIsStale(disk: Disk, edit: WorkspaceEdit)
    requires disk == map[HOME_FILE := ""] && AllRewrite(disk, edit, HOME) && !KeepsText(disk, edit, HOME, HOME_FILE)
    ensures Clean(OPEN_FILE, disk) && !Clean(OPEN_FILE, Applied(disk, edit, HOME).0)
  {
    PathsAre();
    OpenFileIs(disk);
    UnsyncedKeepsCleanExactly(OPEN_FILE, disk, edit, HOME);
  }

  /** A text edit of the open file, then a rename of a file that is not there: the text is
      written, the application fails, nothing is synced, and the view is stale. */
  lemma FailedOperationLeavesStaleDocument()
    ensures var disk: Disk := map[HOME_FILE := ""];
      var edit := WorkspaceEdit(Utf16, [FileEdit(FILE, [INSERT_X])], [Rename(OTHER, THIRD)]);
      var (after, result) := Applied(disk, edit, HOME);
      Clean(OPEN_FILE, disk) && result.Err? && !Clean(OPEN_FILE, after)
  {
    var disk: Disk := map[HOME_FILE := ""];
    var edit := WorkspaceEdit(Utf16, [FileEdit(FILE, [INSERT_X])], [Rename(OTHER, THIRD)]);
    TextIsChanged(disk, edit);
    MissingIsNotFound(disk, edit.fileOps);
    AppliedExactly(disk, edit, HOME, HOME_FILE);
    LosingTheTextIsStale(disk, edit);
  }

  lemma TextIsChanged(disk: Disk, edit: WorkspaceEdit)
    requires disk == map[HOME_FILE := ""]
    requires edit.encoding == Utf16 && edit.files == [FileEdit(FILE, [INSERT_X])]
    ensures AllRewrite(disk, edit, HOME) && Written(disk, edit, HOME, HOME_FILE)
  {
    PathsAre();
    InsertsX();
    assert RewriteOf(disk, edit.files[0], Utf16, HOME) == Ok(Rewritten("", "x"));
    assert ChangesText(disk, edit, HOME, 0, HOME_FILE);
  }

  lemma MissingIsNotFound(disk: Disk, ops: seq<FileOperation>)
    requires disk == map[HOME_FILE := ""] && ops == [Rename(OTHER, THIRD)]
    ensures Ran(disk.Keys, ops, HOME) == 0
    ensures OriginOf(disk.Keys, ops[..0], HOME, HOME_FILE) == From(HOME_FILE)
  {
    OtherPaths();
    assert ops[..0] == [];
    assert !FindsSource(disk.Keys, ops, HOME, 0);
  }

  /** Two renames of which the second finds no file: the first, of the open file, has run,
      nothing is synced, and the session holds a document whose file is gone. */
  lemma HalfDoneRenamesLeaveStaleDocument()
    ensures var disk: Disk := map[HOME_FILE := ""];
      var edit := WorkspaceEdit(Utf16, [], [Rename(FILE, OTHER), Rename(THIRD, FILE)]);
      var (after, result) := Applied(disk, edit, HOME);
      Clean(OPEN_FILE, disk) && result.Err? && !Clean(OPEN_FILE, after)
  {
    var disk: Disk := map[HOME_FILE := ""];
    var edit := WorkspaceEdit(Utf16, [], [Rename(FILE, OTHER), Rename(THIRD, FILE)]);
    SecondRenameFails(disk, edit.fileOps);
    AppliedExactly(disk, edit, HOME, HOME_FILE);
    LosingTheTextIsStale(disk, edit);
  }

  lemma SecondRenameFails(disk: Disk, ops: seq<FileOperation>)
    requires disk == map[HOME_FILE := ""] && ops == [Rename(FILE, OTHER), Rename(THIRD, FILE)]
    ensures Ran(disk.Keys, ops, HOME) == 1
    ensures OriginOf(disk.Keys, ops[..1], HOME, HOME_FILE) == Nowhere
  {
    PathsAre();
    OtherPaths();
    var third := Resolve(THIRD, HOME);
    assert ops[..0] == [] && ops[..1][..0] == [];
    assert OriginOf(disk.Keys, [], HOME, HOME_FILE) == From(HOME_FILE) && OriginOf(disk.Keys, [], HOME, third) == Nowhere;
    assert third != Resolve(OTHER, HOME) by {
      assert "b.rs"[0] != "c.rs"[0];
      assert third[2] != Resolve(OTHER, HOME)[2];
    }
    assert FindsSource(disk.Keys, ops, HOME, 0) && !FindsSource(disk.Keys, ops, HOME, 1);
  }

  // ---------------------------------------------------------------- overlays

  /** The open file overlaid with the copy's text. */
  const OVERLAID := OverlayOne(OPEN_FILE, map[HOME_FILE := "", COPY_FILE := "x"], COPY, FILE)

  lemma OverlaidIs()
    ensures OVERLAID.overlay == Overlay({HOME_FILE}, {}) && OVERLAID.dirty
    ensures Overlaid(OVERLAID, map[HOME_FILE := "", COPY_FILE := "x"], COPY, [FILE])
  {
    var disk: Disk := map[HOME_FILE := "", COPY_FILE := "x"];
    PathsAre();
    FileIsIndexed();
    OpenFileIs(disk);
    OverlayOneEffect(OPEN_FILE, disk, COPY, FILE);
    assert [FILE][..0] == [];
    assert OverlayEach(OPEN_FILE, disk, COPY, []) == OPEN_FILE;
    OverlayEachKeeps(OPEN_FILE, disk, COPY, [FILE]);
  }

  /** The base file removed while its overlay is up: restoring cannot read it, and the
      session goes on holding the copy's text. */
  lemma VanishedFileIsNotRestored()
    ensures var disk: Disk := map[COPY_FILE := "x"];
      var t := Restore(OVERLAID, disk, [HOME_FILE], []);
      !Clean(t, disk) && ViewAt(t, disk, HOME_FILE) == ViewAt(OVERLAID, disk, HOME_FILE)
  {
    var disk: Disk := map[COPY_FILE := "x"];
    PathsAre();
    OverlaidIs();
    assert Enumerates([HOME_FILE], {HOME_FILE});
    assert !Restorable(OVERLAID, disk);
    RestoreCleansExactly(OVERLAID, disk, [HOME_FILE], []);
  }

  /** A restore dropped as soon as it has taken the record: the next request finds the flag
      set and nothing to undo, and keeps the copy's text. */
  lemma DroppedRestoreIsNotUndone()
    ensures var disk: Disk := map[HOME_FILE := "", COPY_FILE := "x"];
      var t := Abandon.PartlyRestored(OVERLAID, disk, [HOME_FILE], [], 0, 0, false);
      !Clean(BeginRequest(t, disk, [], []), disk)
  {
    var disk: Disk := map[HOME_FILE := "", COPY_FILE := "x"];
    PathsAre();
    FileIsIndexed();
    OverlaidIs();
    assert Enumerates([HOME_FILE], {HOME_FILE}) && Enumerates([], {});
    assert FILE in [FILE] && Shown(LANGS, disk, COPY, FILE);
    assert OVERLAID.server.docs[HOME_FILE].text == "x";
    assert Recorded(OVERLAID, HOME_FILE) && !HoldsFile(OVERLAID, disk, HOME_FILE);
    assert !Abandon.LeftTrue(OVERLAID, disk, [HOME_FILE], [], 0, 0, HOME_FILE);
    Abandon.DroppedRestoreIsCleanExactly(OVERLAID, disk, [HOME_FILE], [], 0, 0, false);
  }

  /** A request dropped right after the notification that opened a file of its copy: the
      next one starts with that text. */
  lemma DroppedAfterNotification()
    ensures var disk: Disk := map[COPY_FILE := "x"];
      Shown(LANGS, disk, COPY, FILE)
      && !Clean(BeginRequest(Abandon.Partial(NEW, disk, COPY, FILE, 1), disk, [], []), disk)
  {
    var disk: Disk := map[COPY_FILE := "x"];
    PathsAre();
    FileIsIndexed();
    assert Enumerates([], {});
    NewSessionIsClean(HOME, LANGS, disk);
    assert Abandon.Partial(NEW, disk, COPY, FILE, 1).overlay == NO_OVERLAY;
    Abandon.NextRequestIsCleanExactly(NEW, disk, COPY, FILE, 1, [], []);
  }

  /** A request dropped right after the notification that opened the base file: the next
      one opens it a second time. */
  lemma DroppedOpenOpensTwice()
    ensures var disk: Disk := map[HOME_FILE := ""];
      var u := BeginRequest(Abandon.Opening(NEW, disk, FILE, 1), disk, [], []);
      !Clean(u, disk) && !Protocol.WellFormedTrace(EnsureOpen(u, disk, FILE).trace)
  {
    var disk: Disk := map[HOME_FILE := ""];
    PathsAre();
    assert Enumerates([], {});
    NewSessionIsClean(HOME, LANGS, disk);
    Abandon.DroppedOpenIsCleanExactly(NEW, disk, FILE, 1, [], []);
    Abandon.OpeningAgainKeepsRulesExactly(NEW, disk, FILE, 1, [], [], disk);
  }

  /** A file deleted in the working copy, and so part of its delta: the overlay shows the
      base text, where the working copy has no file. */
  lemma DeletedFileShowsBase()
    ensures var disk: Disk := map[HOME_FILE := ""];
      var s := OverlayEach(NEW, disk, COPY, [FILE]);
      && Overlaid(s, disk, COPY, [FILE])
      && ViewAt(s, disk, HOME_FILE) == Some("") && FileAt(disk, COPY_FILE) == None
  {
    var disk: Disk := map[HOME_FILE := ""];
    PathsAre();
    NewSessionIsClean(HOME, LANGS, disk);
    OverlayEachKeeps(NEW, disk, COPY, [FILE]);
    assert [FILE][..0] == [];
    assert OverlayEach(NEW, disk, COPY, []) == NEW;
  }
}
