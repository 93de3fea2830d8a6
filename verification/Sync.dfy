/** Applying an edit to the session's own checkout and syncing the session after it. */
module Sync {
  import opened Wrappers
  import opened Paths
  import opened Applier
  import opened Session
  import Text

  /** `p` is the source of a file rename. */
  predicate RenamedFrom(ops: seq<FileOperation>, root: Path, p: Path) {
    exists i :: 0 <= i < |ops| && ops[i].Rename? && Resolve(ops[i].from, root) == p
  }

  predicate ReportedByOps(ops: seq<FileOperation>, root: Path, p: Path) {
    exists i :: 0 <= i < |ops| && Resolve(Reported(ops[i]), root) == p
  }

  lemma ResolveEachAppend(root: Path, a: seq<Path>, b: seq<Path>)
    ensures ResolveEach(root, a + b) == ResolveEach(root, a) + ResolveEach(root, b)
  {
    if b == [] {
      assert a + b == a;
    } else {
      assert (a + b)[..|a + b| - 1] == a + b[..|b| - 1];
      ResolveEachAppend(root, a, b[..|b| - 1]);
    }
  }

  /** The changed files a plan reports resolve to the paths it writes. */
  lemma {:induction false} PlanReports(files: seq<FileEdit>, rewritten: seq<Rewritten>, root: Path, p: Path)
    requires |files| == |rewritten| && IsRoot(root)
    requires forall i :: 0 <= i < |files| ==> WellFormed(files[i].path)
    ensures p in ResolveEach(root, RelPaths(PlanOf(files, rewritten, root)))
      <==> LastWrite(PlanOf(files, rewritten, root), p).Some?
  {
    if files != [] {
      var n := |files| - 1;
      PlanReports(files[..n], rewritten[..n], root, p);
      var plan := PlanOf(files[..n], rewritten[..n], root);
      if rewritten[n].original == rewritten[n].updated {
        assert plan + [] == plan;
      } else {
        var w := Planned(Resolve(files[n].path, root), Relativize(files[n].path, root), rewritten[n].updated);
        LastWriteAppend(plan, w, p);
        ResolveRelativize(files[n].path, root);
        assert (plan + [w])[..|plan|] == plan;
        assert RelPaths(plan + [w]) == RelPaths(plan) + [w.rel];
        ResolveEachAppend(root, RelPaths(plan), [w.rel]);
        assert ResolveEach(root, [w.rel]) == [w.abs];
      }
    }
  }

  lemma ReportedSnoc(ops: seq<FileOperation>, root: Path, p: Path)
    requires ops != []
    ensures ReportedByOps(ops, root, p) <==>
      ReportedByOps(ops[..|ops| - 1], root, p) || Resolve(Reported(ops[|ops| - 1]), root) == p
  {
    var n := |ops| - 1;
    if i :| 0 <= i < |ops| && Resolve(Reported(ops[i]), root) == p {
      if i < n { assert ops[..n][i] == ops[i]; }
    }
    if i :| 0 <= i < n && Resolve(Reported(ops[..n][i]), root) == p {
      assert ops[..n][i] == ops[i];
    }
  }

  lemma ResolveEachSnoc(root: Path, paths: seq<Path>, last: Path)
    ensures ResolveEach(root, paths + [last]) == ResolveEach(root, paths) + [Resolve(last, root)]
  {
    assert (paths + [last])[..|paths|] == paths;
  }

  lemma {:induction false} OpsReport(disk: Disk, ops: seq<FileOperation>, root: Path, p: Path)
    requires IsRoot(root) && forall i :: 0 <= i < |ops| ==> OpWellFormed(ops[i])
    requires RunOps(disk, ops, root).1.Ok?
    ensures p in ResolveEach(root, RunOps(disk, ops, root).1.value) <==> ReportedByOps(ops, root, p)
  {
    if ops != [] {
      var n := |ops| - 1;
      var last := Reported(ops[n]);
      OpsReport(disk, ops[..n], root, p);
      ReportedSnoc(ops, root, p);
      ReportedIsWellFormed(ops[n], root);
      ResolveEachSnoc(root, RunOps(disk, ops[..n], root).1.value, Relativize(last, root));
    }
  }

  lemma ReportedIsWellFormed(op: FileOperation, root: Path)
    requires IsRoot(root) && OpWellFormed(op)
    ensures Resolve(Relativize(Reported(op), root), root) == Resolve(Reported(op), root)
  {
    ResolveRelativize(Reported(op), root);
  }

  /** An operation that does not report `p` removes it when renaming it and never adds it. */
  lemma OpRemoves(disk: Disk, op: FileOperation, root: Path, p: Path)
    requires RunOp(disk, op, root).Ok? && Resolve(Reported(op), root) != p
    requires p !in disk || (op.Rename? && Resolve(op.from, root) == p)
    ensures p !in RunOp(disk, op, root).value
  {
  }

  lemma RenamedSnoc(ops: seq<FileOperation>, root: Path, p: Path)
    requires ops != [] && RenamedFrom(ops, root, p)
    ensures var op := ops[|ops| - 1];
      (op.Rename? && Resolve(op.from, root) == p) || RenamedFrom(ops[..|ops| - 1], root, p)
  {
    var n := |ops| - 1;
    var i :| 0 <= i < |ops| && ops[i].Rename? && Resolve(ops[i].from, root) == p;
    if i < n {
      assert ops[..n][i] == ops[i];
    }
  }

  /** A path that is renamed away, and that no operation reports, is gone afterwards. */
  lemma {:induction false} RenamedAwayIsGone(disk: Disk, ops: seq<FileOperation>, root: Path, p: Path)
    requires RunOps(disk, ops, root).1.Ok?
    requires RenamedFrom(ops, root, p) && !ReportedByOps(ops, root, p)
    ensures p !in RunOps(disk, ops, root).0
  {
    var n := |ops| - 1;
    LastOp(disk, ops, root);
    RenamedSnoc(ops, root, p);
    ReportedSnoc(ops, root, p);
    if RenamedFrom(ops[..n], root, p) {
      RenamedAwayIsGone(disk, ops[..n], root, p);
    }
    OpRemoves(RunOps(disk, ops[..n], root).0, ops[n], root, p);
  }

  lemma NeitherReportedNorRenamed(ops: seq<FileOperation>, root: Path, p: Path)
    requires !ReportedByOps(ops, root, p) && !RenamedFrom(ops, root, p)
    ensures forall i :: 0 <= i < |ops| ==> p !in OpPaths(ops[i], root)
  {
    forall i | 0 <= i < |ops| ensures p !in OpPaths(ops[i], root) {
      assert Resolve(Reported(ops[i]), root) != p;
      assert !(ops[i].Rename? && Resolve(ops[i].from, root) == p);
    }
  }

  /** What an application that succeeded did to one path: a path not reported is
      as it was, unless it was renamed away. */
  lemma AppliedPath(disk: Disk, edit: WorkspaceEdit, root: Path, p: Path)
    requires IsRoot(root) && EditWellFormed(edit) && Applied(disk, edit, root).1.Ok?
    requires p !in ResolveEach(root, Applied(disk, edit, root).1.value)
    ensures if RenamedFrom(edit.fileOps, root, p) then p !in Applied(disk, edit, root).0
      else SameAt(Applied(disk, edit, root).0, disk, p)
    ensures !ReportedByOps(edit.fileOps, root, p)
  {
    PlanWhenAllRewrite(disk, edit, root);
    var rewritten, planned := AllRewritten(disk, edit, root), Writes(disk, edit, root);
    var written := WriteAll(disk, planned);
    var paths := RunOps(written, edit.fileOps, root).1.value;
    ResolveEachAppend(root, RelPaths(planned), paths);
    PlanReports(edit.files, rewritten, root, p);
    OpsReport(written, edit.fileOps, root, p);
    WriteAllLastWins(disk, planned, p);
    if RenamedFrom(edit.fileOps, root, p) {
      RenamedAwayIsGone(written, edit.fileOps, root, p);
    } else {
      NeitherReportedNorRenamed(edit.fileOps, root, p);
      OpsFrame(written, edit.fileOps, root, p);
    }
  }

  /** Some text edit changes `p`. */
  ghost predicate Written(disk: Disk, edit: WorkspaceEdit, root: Path, p: Path) {
    exists i :: 0 <= i < |edit.files| && ChangesText(disk, edit, root, i, p)
  }

  lemma WrittenExactly(disk: Disk, edit: WorkspaceEdit, root: Path, p: Path)
    requires AllRewrite(disk, edit, root)
    ensures Written(disk, edit, root, p) <==> LastWrite(Writes(disk, edit, root), p).Some?
    ensures Written(disk, edit, root, p) ==>
      p in disk && LastWrite(Writes(disk, edit, root), p) != Some(disk[p])
  {
    var k := LastChange(disk, edit, root, p);
  }

  /** The changed files a successful application reports are those its text edits
      change and those its file operations report. */
  lemma ReportsExactly(disk: Disk, edit: WorkspaceEdit, root: Path, p: Path)
    requires IsRoot(root) && EditWellFormed(edit) && Applied(disk, edit, root).1.Ok?
    ensures p in ResolveEach(root, Applied(disk, edit, root).1.value)
      <==> Written(disk, edit, root, p) || ReportedByOps(edit.fileOps, root, p)
  {
    PlanWhenAllRewrite(disk, edit, root);
    var planned := Writes(disk, edit, root);
    var written := WriteAll(disk, planned);
    ResolveEachAppend(root, RelPaths(planned), RunOps(written, edit.fileOps, root).1.value);
    PlanReports(edit.files, AllRewritten(disk, edit, root), root, p);
    OpsReport(written, edit.fileOps, root, p);
    WrittenExactly(disk, edit, root, p);
  }

  /** Every open file that a rename moves away is also changed by a text edit, or
      reported by some operation. */
  ghost predicate SourcesReported(s: State, disk: Disk, edit: WorkspaceEdit) {
    forall p :: p in s.openDocs && StartsWith(p, s.root) && RenamedFrom(edit.fileOps, s.root, p) ==>
      ReportedByOps(edit.fileOps, s.root, p) || Written(disk, edit, s.root, p)
  }

  /** Applying an edit to the base checkout and syncing keeps the session's view of
      it true exactly when no open document is renamed away unreported: a rename
      reports only where the file went. */
  lemma SyncKeepsCleanExactly(s: State, disk: Disk, edit: WorkspaceEdit)
    requires Clean(s, disk) && EditWellFormed(edit) && Succeeds(disk, edit, s.root)
    ensures Applied(disk, edit, s.root).1.Ok?
    ensures var (after, changed) := Applied(disk, edit, s.root);
      Clean(SyncChanged(s, changed.value), after) <==> SourcesReported(s, disk, edit)
    ensures Versioned(s) ==> Versioned(SyncChanged(s, Applied(disk, edit, s.root).1.value))
  {
    AppliedExactly(disk, edit, s.root, s.root);
    var (after, result) := Applied(disk, edit, s.root);
    SyncChangedEffect(s, result.value);
    StillClean(s, disk, SyncChanged(s, result.value), after);
    forall p | p in s.openDocs && StartsWith(p, s.root) ensures SyncedDocument(s, disk, edit, p) {
      DocumentIsSynced(s, disk, edit, p);
    }
  }

  /** The open document `p` is closed by the sync when the edit changes or reports it, and
      if it stays open holds its file unless that was renamed away. */
  ghost predicate SyncedDocument(s: State, disk: Disk, edit: WorkspaceEdit, p: Path)
    requires Applied(disk, edit, s.root).1.Ok?
  {
    var (after, result) := Applied(disk, edit, s.root);
    var t := SyncChanged(s, result.value);
    && (p in t.openDocs <==> !Written(disk, edit, s.root, p) && !ReportedByOps(edit.fileOps, s.root, p))
    && (p in t.openDocs ==> (HoldsFile(t, after, p) <==> !RenamedFrom(edit.fileOps, s.root, p)))
  }

  lemma DocumentIsSynced(s: State, disk: Disk, edit: WorkspaceEdit, p: Path)
    requires IsRoot(s.root) && EditWellFormed(edit) && Applied(disk, edit, s.root).1.Ok?
    requires s.openDocs == s.server.docs.Keys && p in s.openDocs && HoldsFile(s, disk, p)
    ensures SyncedDocument(s, disk, edit, p)
  {
    SyncChangedEffect(s, Applied(disk, edit, s.root).1.value);
    ReportsExactly(disk, edit, s.root, p);
    if p !in ResolveEach(s.root, Applied(disk, edit, s.root).1.value) {
      UnreportedFile(disk, edit, s.root, p);
    }
  }

  /** A session left with some of its documents is clean when those hold their files. */
  lemma StillClean(s: State, disk: Disk, t: State, after: Disk)
    requires Clean(s, disk) && t == s.(openDocs := t.openDocs, trace := t.trace, server := t.server)
    requires t.openDocs == t.server.docs.Keys
    ensures Clean(t, after) <==> forall p :: p in t.openDocs && StartsWith(p, s.root) ==> HoldsFile(t, after, p)
  {
  }

  /** A path the application does not report is in place unless it was renamed away. */
  lemma UnreportedFile(disk: Disk, edit: WorkspaceEdit, root: Path, p: Path)
    requires IsRoot(root) && EditWellFormed(edit) && Applied(disk, edit, root).1.Ok? && p in disk
    requires p !in ResolveEach(root, Applied(disk, edit, root).1.value)
    ensures FileAt(Applied(disk, edit, root).0, p) == Some(disk[p]) <==> !RenamedFrom(edit.fileOps, root, p)
  {
    AppliedPath(disk, edit, root, p);
  }

  /** An application leaves the text of the file at `p` as it is: what its operations
      bring there, if anything, is that file with no text edit to it, or one that the
      text edits give the very same text. */
  ghost predicate KeepsText(disk: Disk, edit: WorkspaceEdit, workspace: Path, p: Path)
    requires p in disk && AllRewrite(disk, edit, workspace)
  {
    match Source(disk, edit, workspace, p)
    case Nowhere => false
    case Blank => disk[p] == ""
    case From(q) => if q == p then !Written(disk, edit, workspace, p) else Edited(disk, edit, workspace, q) == Some(disk[p])
  }

  /** An application keeps the text of every open document of the base checkout. */
  ghost predicate KeepsOpenTexts(s: State, disk: Disk, edit: WorkspaceEdit, workspace: Path)
    requires AllRewrite(disk, edit, workspace)
  {
    forall p :: p in s.openDocs && StartsWith(p, s.root) && p in disk ==> KeepsText(disk, edit, workspace, p)
  }

  /** An application that is not synced, to another checkout or cut short by a file
      operation that fails, leaves the view true exactly when some file could not be
      rewritten, so that nothing was, or every open document keeps its text. */
  lemma UnsyncedKeepsCleanExactly(s: State, disk: Disk, edit: WorkspaceEdit, workspace: Path)
    requires Clean(s, disk)
    ensures Clean(s, Applied(disk, edit, workspace).0)
      <==> !AllRewrite(disk, edit, workspace) || KeepsOpenTexts(s, disk, edit, workspace)
  {
    AppliedExactly(disk, edit, workspace, s.root);
    if AllRewrite(disk, edit, workspace) {
      forall p | p in s.openDocs && StartsWith(p, s.root)
        ensures p in disk
        ensures HoldsFile(s, Applied(disk, edit, workspace).0, p) <==> KeepsText(disk, edit, workspace, p)
      {
        assert HoldsFile(s, disk, p);
        KeptDocument(disk, edit, workspace, p);
      }
    }
  }

  lemma KeptDocument(disk: Disk, edit: WorkspaceEdit, workspace: Path, p: Path)
    requires AllRewrite(disk, edit, workspace) && p in disk
    ensures FileAt(Applied(disk, edit, workspace).0, p) == Some(disk[p]) <==> KeepsText(disk, edit, workspace, p)
  {
    AppliedExactly(disk, edit, workspace, p);
    WrittenExactly(disk, edit, workspace, p);
  }

  /** After a successful application to the base checkout the server is told of every path
      whose file differs, but for a file renamed away that is not reported otherwise; and
      of no path that no text edit changes and no operation reports. */
  lemma SyncAnnouncesChanges(s: State, disk: Disk, edit: WorkspaceEdit) returns (closed: seq<Path>, announced: seq<Path>)
    requires IsRoot(s.root) && EditWellFormed(edit) && Succeeds(disk, edit, s.root)
    ensures Applied(disk, edit, s.root).1.Ok?
    ensures SyncChanged(s, Applied(disk, edit, s.root).1.value).trace
      == s.trace + Closing(closed) + [WatchedFilesChanged(announced)]
    ensures forall p :: p in announced <==> Written(disk, edit, s.root, p) || ReportedByOps(edit.fileOps, s.root, p)
    ensures forall p :: p !in announced && !RenamedFrom(edit.fileOps, s.root, p) ==>
      SameAt(Applied(disk, edit, s.root).0, disk, p)
    ensures Enumerates(closed, set p | p in s.openDocs && p in announced)
  {
    AppliedExactly(disk, edit, s.root, s.root);
    var changed := Applied(disk, edit, s.root).1.value;
    closed, announced := SyncAnnounces(s, changed);
    ResolveEachAt(s.root, changed);
    assert announced == ResolveEach(s.root, changed);
    forall p
      ensures p in announced <==> Written(disk, edit, s.root, p) || ReportedByOps(edit.fileOps, s.root, p)
      ensures p !in announced && !RenamedFrom(edit.fileOps, s.root, p) ==> SameAt(Applied(disk, edit, s.root).0, disk, p)
    {
      ReportsExactly(disk, edit, s.root, p);
      if p !in announced {
        AppliedPath(disk, edit, s.root, p);
      }
    }
  }

  /** No operation creates `p` or renames a file to it. */
  predicate NothingArrives(ops: seq<FileOperation>, root: Path, p: Path) {
    forall i :: 0 <= i < |ops| && !ops[i].Delete? ==> Resolve(Reported(ops[i]), root) != p
  }

  /** So a document that nothing is created at or renamed to keeps its text exactly when
      no text edit changes it and no operation that ran deletes it or renames it away. */
  lemma KeepsTextExactly(disk: Disk, edit: WorkspaceEdit, workspace: Path, p: Path)
    requires AllRewrite(disk, edit, workspace) && p in disk && NothingArrives(edit.fileOps, workspace, p)
    ensures KeepsText(disk, edit, workspace, p) <==>
      && !Written(disk, edit, workspace, p)
      && !NamedByOps(edit.fileOps[..Ran(disk.Keys, edit.fileOps, workspace)], workspace, p)
  {
    var ran := edit.fileOps[..Ran(disk.Keys, edit.fileOps, workspace)];
    forall i | 0 <= i < |ran| && !ran[i].Delete? ensures Resolve(Reported(ran[i]), workspace) != p {
      assert ran[i] == edit.fileOps[i];
    }
    KeptExactly(disk.Keys, ran, workspace, p);
  }
}
