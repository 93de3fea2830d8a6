/** One request from end to end: overlay, operation, restore, then the edit it
    produced, moved onto the requested working copy, checked and applied. */
module Finish {
  import opened Wrappers
  import opened Paths
  import Text
  import opened Rewrite
  import opened Applier
  import opened Session
  import opened LspSessions
  import opened Sync
  import opened Requests
  import opened Moving

  // ---------------------------------------------------------------- staying inside

  predicate Inside(p: Path, workspace: Path) {
    !IsAbsolute(p) || StartsWith(p, workspace)
  }

  predicate OpInside(op: FileOperation, workspace: Path) {
    match op
    case Create(path) => Inside(path, workspace)
    case Rename(from, to) => Inside(from, workspace) && Inside(to, workspace)
    case Delete(path) => Inside(path, workspace)
  }

  /** What the program checks before it touches the working copy. */
  predicate StaysInside(edit: WorkspaceEdit, workspace: Path) {
    && (forall i :: 0 <= i < |edit.files| ==> Inside(edit.files[i].path, workspace))
    && (forall i :: 0 <= i < |edit.fileOps| ==> OpInside(edit.fileOps[i], workspace))
  }

  lemma ResolvesInside(p: Path, workspace: Path)
    requires IsAbsolute(workspace)
    ensures Inside(p, workspace) <==> StartsWith(Resolve(p, workspace), workspace)
  {
  }

  /** The check passes exactly when every path the edit names resolves into the workspace. */
  lemma StaysInsideExactly(edit: WorkspaceEdit, workspace: Path)
    requires IsAbsolute(workspace)
    ensures StaysInside(edit, workspace) <==> forall p :: Touches(edit, workspace, p) ==> StartsWith(p, workspace)
  {
    if StaysInside(edit, workspace) {
      forall p | Touches(edit, workspace, p) ensures StartsWith(p, workspace) {
        if i :| 0 <= i < |edit.files| && Resolve(edit.files[i].path, workspace) == p {
          ResolvesInside(edit.files[i].path, workspace);
        } else {
          var i :| 0 <= i < |edit.fileOps| && p in OpPaths(edit.fileOps[i], workspace);
          assert OpInside(edit.fileOps[i], workspace);
        }
      }
    }
    if forall p :: Touches(edit, workspace, p) ==> StartsWith(p, workspace) {
      forall i | 0 <= i < |edit.files| ensures Inside(edit.files[i].path, workspace) {
        assert Touches(edit, workspace, Resolve(edit.files[i].path, workspace));
        ResolvesInside(edit.files[i].path, workspace);
      }
      forall i | 0 <= i < |edit.fileOps| ensures OpInside(edit.fileOps[i], workspace) {
        forall p | p in OpPaths(edit.fileOps[i], workspace) ensures StartsWith(p, workspace) {
          assert Touches(edit, workspace, p);
        }
        OpPathsInside(edit.fileOps[i], workspace);
      }
    }
  }

  lemma OpPathsInside(op: FileOperation, workspace: Path)
    requires IsAbsolute(workspace)
    requires forall p :: p in OpPaths(op, workspace) ==> StartsWith(p, workspace)
    ensures OpInside(op, workspace)
  {
    match op {
      case Create(path) => ResolvesInside(path, workspace);
      case Rename(from, to) =>
        assert Resolve(from, workspace) in OpPaths(op, workspace);
        assert Resolve(to, workspace) in OpPaths(op, workspace);
        ResolvesInside(from, workspace);
        ResolvesInside(to, workspace);
      case Delete(path) => ResolvesInside(path, workspace);
    }
  }

  /** Moved from the base root to a working copy, an edit passes the check exactly when every
      path it named lies below one of the two: a path elsewhere is not moved, and refused. */
  lemma EscapesExactly(edit: WorkspaceEdit, root: Path, workspace: Path)
    requires IsRoot(root) && IsAbsolute(workspace) && EditWellFormed(edit)
    ensures StaysInside(Retargeted(edit, root, workspace), workspace)
      <==> forall p :: Touches(edit, root, p) ==> StartsWith(p, root) || StartsWith(p, workspace)
  {
    var moved := Retargeted(edit, root, workspace);
    forall i | 0 <= i < |edit.files|
      ensures Inside(moved.files[i].path, workspace) <==> MayMove(edit.files[i].path, root, workspace)
    {
      MovedInside(edit.files[i].path, root, workspace);
    }
    forall i | 0 <= i < |edit.fileOps|
      ensures OpInside(moved.fileOps[i], workspace) <==>
        forall p :: p in OpPaths(edit.fileOps[i], root) ==> StartsWith(p, root) || StartsWith(p, workspace)
    {
      MovedOpInside(edit.fileOps[i], root, workspace);
    }
    if forall p :: Touches(edit, root, p) ==> StartsWith(p, root) || StartsWith(p, workspace) {
      forall i | 0 <= i < |edit.files| ensures MayMove(edit.files[i].path, root, workspace) {
        assert Touches(edit, root, Resolve(edit.files[i].path, root));
      }
      forall i, p | 0 <= i < |edit.fileOps| && p in OpPaths(edit.fileOps[i], root)
        ensures StartsWith(p, root) || StartsWith(p, workspace)
      {
        assert Touches(edit, root, p);
      }
    }
  }

  predicate MayMove(p: Path, root: Path, workspace: Path) {
    StartsWith(Resolve(p, root), root) || StartsWith(Resolve(p, root), workspace)
  }

  lemma MovedInside(p: Path, root: Path, workspace: Path)
    requires IsRoot(root) && IsAbsolute(workspace) && WellFormed(p)
    ensures Inside(Retarget(p, root, workspace), workspace) <==> MayMove(p, root, workspace)
  {
    RetargetResolves(p, root, workspace);
    ResolvesInside(Retarget(p, root, workspace), workspace);
  }

  lemma MovedOpInside(op: FileOperation, root: Path, workspace: Path)
    requires IsRoot(root) && IsAbsolute(workspace) && OpWellFormed(op)
    ensures OpInside(RetargetOp(op, root, workspace), workspace) <==>
      forall p :: p in OpPaths(op, root) ==> StartsWith(p, root) || StartsWith(p, workspace)
  {
    match op {
      case Create(path) => MovedInside(path, root, workspace);
      case Rename(from, to) =>
        MovedInside(from, root, workspace);
        MovedInside(to, root, workspace);
        assert Resolve(from, root) in OpPaths(op, root) && Resolve(to, root) in OpPaths(op, root);
      case Delete(path) => MovedInside(path, root, workspace);
    }
  }

  /** An edit that passes the check changes nothing outside the workspace, file
      operations included, whether or not it succeeds. */
  lemma NothingOutsideChanges(disk: Disk, edit: WorkspaceEdit, workspace: Path, p: Path)
    requires IsAbsolute(workspace) && StaysInside(edit, workspace) && !StartsWith(p, workspace)
    ensures SameAt(Applied(disk, edit, workspace).0, disk, p)
  {
    StaysInsideExactly(edit, workspace);
    ApplyFrame(disk, edit, workspace, p);
  }

  /** Editing a sibling checkout, one that neither contains the base checkout nor lies
      inside it, never disturbs the session's view of the base. */
  lemma SiblingEditsKeepView(s: State, disk: Disk, workspace: Path, edit: WorkspaceEdit)
    requires IsAbsolute(workspace) && StaysInside(edit, workspace)
    requires !StartsWith(workspace, s.root) && !StartsWith(s.root, workspace)
    ensures KeepsView(s, disk, workspace, edit)
  {
    StaysInsideExactly(edit, workspace);
    if AllRewrite(disk, edit, workspace) {
      forall p | StartsWith(p, s.root) && p in disk ensures KeepsText(disk, edit, workspace, p) {
        PrefixesNest(p, workspace, s.root);
        UntouchedKeepsText(disk, edit, workspace, p);
      }
    }
  }

  lemma UntouchedKeepsText(disk: Disk, edit: WorkspaceEdit, workspace: Path, p: Path)
    requires AllRewrite(disk, edit, workspace) && p in disk && !Touches(edit, workspace, p)
    ensures KeepsText(disk, edit, workspace, p)
  {
    ApplyFrame(disk, edit, workspace, p);
    KeptDocument(disk, edit, workspace, p);
  }

  // ---------------------------------------------------------------- what the view stands for

  /** While a working copy is overlaid, an indexed file's view is the working copy's
      own file exactly when the file is a readable member of the delta or the two
      checkouts agree on it. A file deleted in the working copy, or committed there
      and so missing from the delta, still shows the base text. */
  lemma ViewIsWorkingCopyExactly(s: State, disk: Disk, workspace: Path, delta: seq<Path>, rel: Path)
    requires Shows(s, disk, workspace, delta) && !IsAbsolute(rel) && Indexes(s.langs, rel)
    ensures ViewAt(s, disk, s.root + rel) == FileAt(disk, workspace + rel) <==>
      (rel in delta && workspace + rel in disk) || FileAt(disk, s.root + rel) == FileAt(disk, workspace + rel)
  {
    if workspace != s.root {
      BaseInjective(s.root, rel, rel);
      assert (s.root + rel)[|s.root|..] == rel;
      OverlaidViewIsSimpleView(s, disk, workspace, delta, s.root + rel);
    }
  }

  /** The text quoted beside a result is read from the content root; for a file of
      the delta it is the text the result was resolved against. */
  lemma QuotedTextIsViewedText(s: State, disk: Disk, workspace: Path, delta: seq<Path>, rel: Path)
    requires Clean(s, disk) && AllRelative(delta) && rel in delta && Shown(s.langs, disk, workspace, rel)
    ensures var t := Session.OverlayWorkspace(s, disk, workspace, delta);
      FileAt(disk, Join(ContentRoot(t), rel)) == ViewAt(t, disk, Join(s.root, rel))
  {
    if workspace != s.root {
      OverlayEachKeeps(s, disk, workspace, delta);
      OverlayEachFrame(s, disk, workspace, delta);
      var t := OverlayEach(s, disk, workspace, delta);
      assert t.root + rel in ShownPaths(t, disk, workspace, delta);
      OverlaidViewIsSimpleView(t, disk, workspace, delta, t.root + rel);
    }
  }

  lemma {:induction false} OverlayEachFrame(s: State, disk: Disk, workspace: Path, delta: seq<Path>)
    ensures OverlayEach(s, disk, workspace, delta).root == s.root
    ensures OverlayEach(s, disk, workspace, delta).langs == s.langs
  {
    if delta != [] {
      OverlayEachFrame(s, disk, workspace, delta[..|delta| - 1]);
    }
  }

  // ---------------------------------------------------------------- end to end

  /** The view of `p` stands for the working copy's file: the request presents it, or
      it is not stale and the two checkouts agree on it. */
  ghost predicate ComputedOnView(sys: System, r: Request, p: Path)
    requires StartsWith(p, sys.session.root)
  {
    || OwnFile(sys, r, p)
    || (p !in sys.stale && FileAt(sys.disk, p) == FileAt(sys.disk, r.workspace + p[|sys.session.root|..]))
  }

  /** The file operations leave `p` alone, or carry it to `q`. */
  predicate Arrives(edit: WorkspaceEdit, root: Path, p: Path, q: Path) {
    if p == q then UntouchedByOps(edit, root, p)
    else exists k :: 0 <= k < |edit.fileOps| && Carries(edit.fileOps, root, k, p, q)
  }

  /** The edit moved onto the working copy of request `id`. */
  function Moved(sys: System, id: nat, edit: WorkspaceEdit): WorkspaceEdit
    requires id in sys.requests
  {
    Retargeted(edit, sys.session.root, sys.requests[id].workspace)
  }

  /** Request `id` is running and may restore, then apply its moved edit. */
  ghost predicate CanFinish(sys: System, id: nat, changedOrder: seq<Path>, addedOrder: seq<Path>, edit: WorkspaceEdit) {
    && Allowed(sys, RestoreView(id, changedOrder, addedOrder))
    && IsAbsolute(sys.requests[id].workspace)
    && StaysInside(Moved(sys, id, edit), sys.requests[id].workspace)
    && Allowed(Next(sys, RestoreView(id, changedOrder, addedOrder)), FinishEdit(id, Moved(sys, id, edit)))
  }

  ghost function Finished(sys: System, id: nat, changedOrder: seq<Path>, addedOrder: seq<Path>, edit: WorkspaceEdit): System
    requires CanFinish(sys, id, changedOrder, addedOrder, edit)
  {
    Next(Next(sys, RestoreView(id, changedOrder, addedOrder)), FinishEdit(id, Moved(sys, id, edit)))
  }

  /** The place in the working copy of a path below the base root. */
  function Landing(sys: System, id: nat, p: Path): Path
    requires id in sys.requests && StartsWith(p, sys.session.root)
  {
    sys.requests[id].workspace + p[|sys.session.root|..]
  }

  /** The tree in which the base checkout holds what the request's working copy holds. */
  function AtHome(sys: System, id: nat): Disk
    requires id in sys.requests
  {
    CopyAsBase(sys.disk, sys.requests[id].workspace, sys.session.root)
  }

  /** Said of the edit as the backend gave it, of paths below the base root: entry `i` edits
      a file whose view stands for the working copy; with the working copy's files the edit
      can be planned; no other entry disagrees about that file; and the file operations take
      it to `q`, or leave it where `q` is. */
  ghost predicate EntryIsSound(sys: System, id: nat, edit: WorkspaceEdit, i: nat, q: Path)
    requires id in sys.requests && i < |edit.files|
  {
    var root, p := sys.session.root, edit.files[i].path;
    && EditWellFormed(edit) && EditUnder(edit, root)
    && StartsWith(p, root) && StartsWith(q, root) && WellFormed(q)
    && ComputedOnView(sys, sys.requests[id], p)
    && AllRewrite(AtHome(sys, id), edit, root)
    && (forall j :: 0 <= j < |edit.files| ==> !Disagree(AtHome(sys, id), edit, root, i, j))
    && Arrives(edit, root, p, q)
    && (p != q ==> Succeeds(AtHome(sys, id), edit, root))
  }

  /** `landed` holds, after, the rewrite by `file` of the text the server saw before. */
  ghost predicate LandedAsSeen(sys: System, after: Disk, file: FileEdit, enc: Text.Encoding, landed: Path) {
    var seen := ViewAt(sys.session, sys.disk, file.path);
    seen.Some? && landed in after && RewriteText(seen.value, file.edits, enc) == Ok(after[landed])
  }

  /** From the moment an operation runs: restore its overlay, move its edit onto the
      working copy and apply it. Each edited file then holds, at the place in the working
      copy that the edit's own file operations take it to, the rewrite of the text the
      server saw for it; a renamed one is gone from where it was; every path outside the
      working copy is unchanged; and every open document that is not stale holds its base
      text again. */
  lemma EditLandsAsSeen(sys: System, id: nat, changedOrder: seq<Path>, addedOrder: seq<Path>,
                        edit: WorkspaceEdit, i: nat, q: Path)
    requires Inv(sys) && CanFinish(sys, id, changedOrder, addedOrder, edit)
    requires i < |edit.files| && EntryIsSound(sys, id, edit, i, q)
    ensures var after := Finished(sys, id, changedOrder, addedOrder, edit);
      && LandedAsSeen(sys, after.disk, edit.files[i], edit.encoding, Landing(sys, id, q))
      && (edit.files[i].path != q ==> Landing(sys, id, edit.files[i].path) !in after.disk)
      && (forall p :: !StartsWith(p, sys.requests[id].workspace) ==> SameAt(after.disk, sys.disk, p))
      && Clean(after.session, after.disk, after.stale)
  {
    var workspace, moved := sys.requests[id].workspace, Moved(sys, id, edit);
    var restore := RestoreView(id, changedOrder, addedOrder);
    StepKeepsInv(sys, restore);
    FinishEditInv(Next(sys, restore), FinishEdit(id, moved));
    forall p | !StartsWith(p, workspace) ensures SameAt(Applied(sys.disk, moved, workspace).0, sys.disk, p) {
      NothingOutsideChanges(sys.disk, moved, workspace, p);
    }
    MovedEntryArrives(sys.disk, edit, sys.session.root, workspace, i, q);
    RetargetedPath(sys.session.root, workspace, edit.files[i].path);
    SeenText(sys, id, edit.files[i].path);
  }

  /** In the working copy the entry is found at the counterpart of `q`. */
  lemma MovedEntryArrives(disk: Disk, edit: WorkspaceEdit, root: Path, workspace: Path, i: nat, q: Path)
    requires IsRoot(root) && IsAbsolute(workspace) && EditWellFormed(edit) && EditUnder(edit, root)
    requires i < |edit.files| && StartsWith(edit.files[i].path, root) && StartsWith(q, root) && WellFormed(q)
    requires var home := CopyAsBase(disk, workspace, root);
      && AllRewrite(home, edit, root)
      && (forall j :: 0 <= j < |edit.files| ==> !Disagree(home, edit, root, i, j))
      && Arrives(edit, root, edit.files[i].path, q)
      && (edit.files[i].path != q ==> Succeeds(home, edit, root))
    ensures var p, after := edit.files[i].path, Applied(disk, Retargeted(edit, root, workspace), workspace).0;
      var from, to := workspace + p[|root|..], workspace + q[|root|..];
      && from in disk && to in after && RewriteText(disk[from], edit.files[i].edits, edit.encoding) == Ok(after[to])
      && (p != q ==> from !in after)
  {
    var p, home := edit.files[i].path, CopyAsBase(disk, workspace, root);
    var x, y := p[|root|..], q[|root|..];
    assert root + x == p && root + y == q;
    RetargetedPath(root, workspace, p);
    RetargetedPath(root, workspace, q);
    CopyMirrors(disk, workspace, root);
    assert SameFile(disk, workspace, home, root, x);
    MovedEditMirrors(disk, home, edit, root, workspace);
    var after, there := Applied(disk, Retargeted(edit, root, workspace), workspace).0, Applied(home, edit, root).0;
    assert SameFile(after, workspace, there, root, x) && SameFile(after, workspace, there, root, y);
    AppliedExactly(home, edit, root, q);
    EntryArrives(home, edit, root, i, q);
  }

  /** One entry is found where the file operations take it. */
  lemma EntryArrives(disk: Disk, edit: WorkspaceEdit, root: Path, i: nat, q: Path)
    requires AllRewrite(disk, edit, root) && i < |edit.files|
    requires forall j :: 0 <= j < |edit.files| ==> !Disagree(disk, edit, root, i, j)
    requires Arrives(edit, root, Resolve(edit.files[i].path, root), q)
    requires Resolve(edit.files[i].path, root) != q ==> Applied(disk, edit, root).1.Ok?
    ensures var after := Applied(disk, edit, root).0;
      && q in after && after[q] == RewrittenAt(disk, edit, root, i).updated
      && (Resolve(edit.files[i].path, root) != q ==> Resolve(edit.files[i].path, root) !in after)
  {
    var p := Resolve(edit.files[i].path, root);
    if p == q {
      AgreedEntryLands(disk, edit, root, i);
    } else {
      var k :| 0 <= k < |edit.fileOps| && Carries(edit.fileOps, root, k, p, q);
      EditedThenRenamed(disk, edit, root, i, k, q);
    }
  }

  lemma SeenText(sys: System, id: nat, p: Path)
    requires Inv(sys) && Holds(sys, id) && sys.requests[id].phase == Running
    requires StartsWith(p, sys.session.root) && !IsAbsolute(p[|sys.session.root|..])
    requires ComputedOnView(sys, sys.requests[id], p)
    ensures ViewAt(sys.session, sys.disk, p)
      == FileAt(sys.disk, sys.requests[id].workspace + p[|sys.session.root|..])
  {
    RunningView(sys, id, p);
    assert sys.session.root + p[|sys.session.root|..] == p;
  }

  // ---------------------------------------------------------------- the drivers

  datatype Outcome =
    | Outside
    | PreviewOf(entries: Result<seq<FileDiff>, Error>)
    | Changed(files: Result<seq<Path>, Error>)

  datatype Failure = Unreadable(path: Path) | Backend(message: string)

  /** Serve one operation that opens `paths` and then answers `outcome`, an answer or a
      failure: begin, overlay, run, restore. `running` is the session as the operation
      saw it. Whatever happens, the base view is restored. */
  method RunOperation<T>(session: LspSession, disk: Disk, workspace: Path, delta: seq<Path>, paths: seq<Path>,
                         outcome: Result<T, Failure>)
    returns (r: Result<T, Failure>, ghost running: State)
    requires Idle(session.Value(), disk) && AllRelative(delta)
    modifies session
    ensures Shows(running, disk, workspace, delta) && running.root == session.root
    ensures forall p :: StartsWith(p, session.root) ==>
      ViewAt(running, disk, p) == OverlayView(session.langs, session.root, disk, workspace, delta, p)
    ensures r == outcome || (r.Err? && r.error.Unreadable? && r.error.path in paths
      && Resolve(r.error.path, session.root) !in disk)
    ensures Clean(session.Value(), disk)
  {
    ghost var co, ao := session.BeginRequest(disk);
    ghost var begun := session.Value();
    if workspace != session.root {
      session.OverlayWorkspace(disk, workspace, delta);
    }
    ghost var shown := session.Value();
    var failed := session.OpenAndReconcile(disk, paths);
    r := if failed.Some? then Err(Unreadable(failed.value)) else outcome;
    OpenAllKeepsShows(shown, disk, workspace, delta, paths);
    running := session.Value();
    forall p | StartsWith(p, session.root)
      ensures ViewAt(running, disk, p) == OverlayView(session.langs, session.root, disk, workspace, delta, p)
    {
      ShownView(running, disk, workspace, delta, p);
    }
    co, ao := session.RestoreOverlay(disk);
  }

  lemma ShownView(s: State, disk: Disk, workspace: Path, delta: seq<Path>, p: Path)
    requires Shows(s, disk, workspace, delta) && AllRelative(delta) && StartsWith(p, s.root)
    ensures ViewAt(s, disk, p) == OverlayView(s.langs, s.root, disk, workspace, delta, p)
  {
    assert s.root + p[|s.root|..] == p;
    if workspace == s.root {
      assert !IsAbsolute(p[|s.root|..]) || p[|s.root|..] !in delta;
      assert p in s.openDocs ==> HoldsFile(s, disk, p);
    } else {
      OverlaidViewIsSimpleView(s, disk, workspace, delta, p);
    }
  }

  lemma {:induction false} OpenAllKeepsShows(s: State, disk: Disk, workspace: Path, delta: seq<Path>, paths: seq<Path>)
    requires Shows(s, disk, workspace, delta)
    ensures Shows(OpenAll(s, disk, paths).0, disk, workspace, delta)
  {
    if paths != [] {
      var before := paths[..|paths| - 1];
      OpenAllKeepsShows(s, disk, workspace, delta, before);
      var t := OpenAll(s, disk, before).0;
      OpenAllRoot(s, disk, before);
      EnsureOpenKeepsIdle(t, disk, paths[|paths| - 1]);
      if workspace != s.root {
        EnsureOpenKeepsOverlaid(t, disk, paths[|paths| - 1], workspace, delta);
      }
    }
  }

  lemma {:induction false} OpenAllRoot(s: State, disk: Disk, paths: seq<Path>)
    ensures OpenAll(s, disk, paths).0.root == s.root
  {
    if paths != [] {
      OpenAllRoot(s, disk, paths[..|paths| - 1]);
    }
  }

  /** Preview or apply the edit an operation produced. */
  method FinishOperation(session: LspSession, tree: WorkingTree, edit: WorkspaceEdit, workspace: Path, dryRun: bool)
    returns (r: Outcome)
    requires Clean(session.Value(), tree.files)
    modifies session, tree
    ensures var moved := Retargeted(edit, session.root, workspace);
      if !StaysInside(moved, workspace) then
        r == Outside && tree.files == old(tree.files) && session.Value() == old(session.Value())
      else if dryRun then
        && r == PreviewOf(Previewed(old(tree.files), moved, workspace))
        && tree.files == old(tree.files) && session.Value() == old(session.Value())
      else
        && (tree.files, r) == (Applied(old(tree.files), moved, workspace).0,
          Changed(Applied(old(tree.files), moved, workspace).1))
        && session.Value() == Synced(old(session.Value()), old(tree.files), workspace, moved)
    ensures var moved := Retargeted(edit, session.root, workspace);
      r.Changed? && EditWellFormed(moved) ==>
        (Clean(session.Value(), tree.files) <==> KeepsView(old(session.Value()), old(tree.files), workspace, moved))
  {
    var moved := RetargetEdit(edit, session.root, workspace);
    if !StaysInside(moved, workspace) {
      return Outside;
    }
    if dryRun {
      var entries := tree.Preview(moved, workspace);
      return PreviewOf(entries);
    }
    var applied := tree.Apply(moved, workspace);
    if applied.Ok? && session.root == workspace {
      session.SyncChanged(applied.value);
    }
    if EditWellFormed(moved) {
      AppliedViewExactly(old(session.Value()), old(tree.files), workspace, moved);
    }
    return Changed(applied);
  }
}
