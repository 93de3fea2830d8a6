/** Moving an edit from the checkout it was computed on to a sibling one: every path is
    re-rooted, and applying the moved edit there does what applying the edit would do at
    home, if home were that sibling. */
module Moving {
  import opened Wrappers
  import opened Paths
  import opened Rewrite
  import opened Applier

  function RetargetOp(op: FileOperation, fromRoot: Path, toRoot: Path): FileOperation {
    match op
    case Create(path) => Create(Retarget(path, fromRoot, toRoot))
    case Rename(from, to) => Rename(Retarget(from, fromRoot, toRoot), Retarget(to, fromRoot, toRoot))
    case Delete(path) => Delete(Retarget(path, fromRoot, toRoot))
  }

  function Retargeted(edit: WorkspaceEdit, fromRoot: Path, toRoot: Path): (r: WorkspaceEdit)
    ensures |r.files| == |edit.files| && |r.fileOps| == |edit.fileOps| && r.encoding == edit.encoding
  {
    WorkspaceEdit(edit.encoding,
      seq(|edit.files|, i requires 0 <= i < |edit.files| =>
        FileEdit(Retarget(edit.files[i].path, fromRoot, toRoot), edit.files[i].edits)),
      seq(|edit.fileOps|, i requires 0 <= i < |edit.fileOps| => RetargetOp(edit.fileOps[i], fromRoot, toRoot)))
  }

  /** Re-root every path of an edit, one after the other. */
  method RetargetEdit(edit: WorkspaceEdit, fromRoot: Path, toRoot: Path) returns (r: WorkspaceEdit)
    ensures r == Retargeted(edit, fromRoot, toRoot)
  {
    var files, ops := edit.files, edit.fileOps;
    ghost var goal := Retargeted(edit, fromRoot, toRoot);
    for i := 0 to |files|
      invariant |files| == |edit.files|
      invariant forall j :: 0 <= j < i ==> files[j] == goal.files[j]
      invariant forall j :: i <= j < |files| ==> files[j] == edit.files[j]
    {
      files := files[i := files[i].(path := Retarget(files[i].path, fromRoot, toRoot))];
    }
    for i := 0 to |ops|
      invariant |ops| == |edit.fileOps|
      invariant forall j :: 0 <= j < i ==> ops[j] == goal.fileOps[j]
      invariant forall j :: i <= j < |ops| ==> ops[j] == edit.fileOps[j]
    {
      ops := ops[i := RetargetOp(ops[i], fromRoot, toRoot)];
    }
    r := WorkspaceEdit(edit.encoding, files, ops);
  }

  lemma RetargetedPath(root: Path, workspace: Path, p: Path)
    requires IsRoot(root) && IsAbsolute(workspace) && WellFormed(p) && StartsWith(p, root)
    ensures Resolve(Retarget(p, root, workspace), workspace) == workspace + p[|root|..]
    ensures !IsAbsolute(p[|root|..])
  {
    var rel := p[|root|..];
    if rel != [] {
      assert rel[0] == p[|root|];
    }
  }

  /** Re-rooted, a path of the old root names the same place below the new one; any other
      path is left as it is, so that the escape check sees it. */
  lemma RetargetResolves(p: Path, root: Path, workspace: Path)
    requires IsRoot(root) && IsAbsolute(workspace) && WellFormed(p)
    ensures Under(p, root) ==>
      && Resolve(Retarget(p, root, workspace), workspace) == workspace + Resolve(p, root)[|root|..]
      && !IsAbsolute(Resolve(p, root)[|root|..])
    ensures !Under(p, root) ==> Retarget(p, root, workspace) == p && IsAbsolute(p)
  {
    if IsAbsolute(p) {
      if StartsWith(p, root) {
        RetargetedPath(root, workspace, p);
      }
    } else {
      assert (root + p)[|root|..] == p;
    }
  }

  /** The path resolves to one below the root. */
  predicate Under(p: Path, root: Path) {
    StartsWith(Resolve(p, root), root)
  }

  predicate OpUnder(op: FileOperation, root: Path) {
    match op
    case Create(path) => Under(path, root)
    case Rename(from, to) => Under(from, root) && Under(to, root)
    case Delete(path) => Under(path, root)
  }

  /** Every path the edit names is one below the root. */
  predicate EditUnder(edit: WorkspaceEdit, root: Path) {
    && (forall i :: 0 <= i < |edit.files| ==> Under(edit.files[i].path, root))
    && (forall i :: 0 <= i < |edit.fileOps| ==> OpUnder(edit.fileOps[i], root))
  }

  // ---------------------------------------------------------------- two checkouts alike

  /** `x` is the same file below both roots. */
  predicate SameFile(a: Disk, aRoot: Path, b: Disk, bRoot: Path, x: Path) {
    FileAt(a, aRoot + x) == FileAt(b, bRoot + x)
  }

  /** What lies below `aRoot` in one tree lies below `bRoot` in the other. */
  ghost predicate Mirrors(a: Disk, aRoot: Path, b: Disk, bRoot: Path) {
    forall x :: !IsAbsolute(x) ==> SameFile(a, aRoot, b, bRoot, x)
  }

  lemma BelowInjective(root: Path, x: Path, y: Path)
    ensures root + x == root + y <==> x == y
  {
    assert (root + x)[|root|..] == x && (root + y)[|root|..] == y;
  }

  lemma WriteMirrors(a: Disk, aRoot: Path, b: Disk, bRoot: Path, x: Path, text: string)
    requires Mirrors(a, aRoot, b, bRoot)
    ensures Mirrors(a[aRoot + x := text], aRoot, b[bRoot + x := text], bRoot)
  {
    forall y | !IsAbsolute(y) ensures SameFile(a[aRoot + x := text], aRoot, b[bRoot + x := text], bRoot, y) {
      BelowInjective(aRoot, x, y);
      BelowInjective(bRoot, x, y);
      assert SameFile(a, aRoot, b, bRoot, y);
    }
  }

  lemma RemovalMirrors(a: Disk, aRoot: Path, b: Disk, bRoot: Path, x: Path)
    requires Mirrors(a, aRoot, b, bRoot)
    ensures Mirrors(a - {aRoot + x}, aRoot, b - {bRoot + x}, bRoot)
  {
    forall y | !IsAbsolute(y) ensures SameFile(a - {aRoot + x}, aRoot, b - {bRoot + x}, bRoot, y) {
      BelowInjective(aRoot, x, y);
      BelowInjective(bRoot, x, y);
      assert SameFile(a, aRoot, b, bRoot, y);
    }
  }

  /** The path below the root that `p` names. */
  function Rest(p: Path, root: Path): Path
    requires Under(p, root)
  {
    Resolve(p, root)[|root|..]
  }

  lemma MovedPath(p: Path, root: Path, workspace: Path)
    requires IsRoot(root) && IsAbsolute(workspace) && WellFormed(p) && Under(p, root)
    ensures Resolve(p, root) == root + Rest(p, root) && !IsAbsolute(Rest(p, root))
    ensures Resolve(Retarget(p, root, workspace), workspace) == workspace + Rest(p, root)
    ensures Relativize(p, root) == Rest(p, root) == Relativize(Retarget(p, root, workspace), workspace)
  {
    RetargetResolves(p, root, workspace);
    assert (workspace + Rest(p, root))[|workspace|..] == Rest(p, root);
  }

  /** A moved operation does below the new root what the operation does below the old. */
  lemma MovedOpMirrors(a: Disk, b: Disk, op: FileOperation, root: Path, workspace: Path)
    requires IsRoot(root) && IsAbsolute(workspace) && OpWellFormed(op) && OpUnder(op, root)
    requires Mirrors(a, workspace, b, root)
    ensures var moved, home := RunOp(a, RetargetOp(op, root, workspace), workspace), RunOp(b, op, root);
      (moved.Ok? <==> home.Ok?) && (moved.Ok? ==> Mirrors(moved.value, workspace, home.value, root))
    ensures Relativize(Reported(RetargetOp(op, root, workspace)), workspace) == Relativize(Reported(op), root)
  {
    match op {
      case Create(path) =>
        MovedPath(path, root, workspace);
        assert SameFile(a, workspace, b, root, Rest(path, root));
        WriteMirrors(a, workspace, b, root, Rest(path, root), "");
      case Delete(path) =>
        MovedPath(path, root, workspace);
        RemovalMirrors(a, workspace, b, root, Rest(path, root));
      case Rename(from, to) =>
        MovedPath(from, root, workspace);
        MovedPath(to, root, workspace);
        var x, y := Rest(from, root), Rest(to, root);
        assert SameFile(a, workspace, b, root, x);
        if workspace + x in a {
          RemovalMirrors(a, workspace, b, root, x);
          WriteMirrors(a - {workspace + x}, workspace, b - {root + x}, root, y, a[workspace + x]);
        }
    }
  }

  /** So do moved operations one after the other, up to the first that fails. */
  lemma {:induction false} MovedOpsMirror(a: Disk, b: Disk, moved: seq<FileOperation>, ops: seq<FileOperation>,
                                          root: Path, workspace: Path)
    requires IsRoot(root) && IsAbsolute(workspace) && Mirrors(a, workspace, b, root)
    requires |moved| == |ops| && forall i :: 0 <= i < |ops| ==>
      moved[i] == RetargetOp(ops[i], root, workspace) && OpWellFormed(ops[i]) && OpUnder(ops[i], root)
    ensures var (after, r) := RunOps(a, moved, workspace);
      var (home, s) := RunOps(b, ops, root);
      Mirrors(after, workspace, home, root) && (r.Ok? <==> s.Ok?) && (r.Ok? ==> r == s)
  {
    if ops != [] {
      var n := |ops| - 1;
      MovedOpsMirror(a, b, moved[..n], ops[..n], root, workspace);
      MovedOpMirrors(RunOps(a, moved[..n], workspace).0, RunOps(b, ops[..n], root).0, ops[n], root, workspace);
    }
  }

  // ---------------------------------------------------------------- texts

  lemma MovedFileMirrors(a: Disk, b: Disk, edit: WorkspaceEdit, root: Path, workspace: Path, i: nat)
    requires IsRoot(root) && IsAbsolute(workspace) && EditWellFormed(edit) && EditUnder(edit, root)
    requires Mirrors(a, workspace, b, root) && i < |edit.files|
    ensures var moved := Retargeted(edit, root, workspace);
      var r, s := RewriteOf(a, moved.files[i], moved.encoding, workspace), RewriteOf(b, edit.files[i], edit.encoding, root);
      (r.Ok? <==> s.Ok?) && (r.Ok? ==> r == s)
  {
    MovedPath(edit.files[i].path, root, workspace);
    assert SameFile(a, workspace, b, root, Rest(edit.files[i].path, root));
  }

  lemma {:induction false} MovedPlanMirrors(a: Disk, b: Disk, edit: WorkspaceEdit, root: Path, workspace: Path,
                                            rewritten: seq<Rewritten>, n: nat)
    requires IsRoot(root) && IsAbsolute(workspace) && EditWellFormed(edit) && EditUnder(edit, root)
    requires Mirrors(a, workspace, b, root) && n <= |edit.files| == |rewritten|
    ensures var moved := PlanOf(Retargeted(edit, root, workspace).files[..n], rewritten[..n], workspace);
      var home := PlanOf(edit.files[..n], rewritten[..n], root);
      Mirrors(WriteAll(a, moved), workspace, WriteAll(b, home), root) && RelPaths(moved) == RelPaths(home)
  {
    var files := Retargeted(edit, root, workspace).files;
    if n > 0 {
      var k := n - 1;
      MovedPlanMirrors(a, b, edit, root, workspace, rewritten, k);
      MovedPath(edit.files[k].path, root, workspace);
      PlanNext(files, rewritten, workspace, k);
      PlanNext(edit.files, rewritten, root, k);
      var moved, home := PlanOf(files[..k], rewritten[..k], workspace), PlanOf(edit.files[..k], rewritten[..k], root);
      if rewritten[k].original == rewritten[k].updated {
        assert moved + [] == moved && home + [] == home;
      } else {
        var x := Rest(edit.files[k].path, root);
        WriteNext(a, moved, Planned(workspace + x, x, rewritten[k].updated));
        WriteNext(b, home, Planned(root + x, x, rewritten[k].updated));
        WriteMirrors(WriteAll(a, moved), workspace, WriteAll(b, home), root, x, rewritten[k].updated);
      }
    }
  }

  lemma MovedWholePlanMirrors(a: Disk, b: Disk, edit: WorkspaceEdit, root: Path, workspace: Path,
                              rewritten: seq<Rewritten>)
    requires IsRoot(root) && IsAbsolute(workspace) && EditWellFormed(edit) && EditUnder(edit, root)
    requires Mirrors(a, workspace, b, root) && |edit.files| == |rewritten|
    ensures var moved := PlanOf(Retargeted(edit, root, workspace).files, rewritten, workspace);
      var home := PlanOf(edit.files, rewritten, root);
      Mirrors(WriteAll(a, moved), workspace, WriteAll(b, home), root) && RelPaths(moved) == RelPaths(home)
  {
    var files, n := Retargeted(edit, root, workspace).files, |edit.files|;
    MovedPlanMirrors(a, b, edit, root, workspace, rewritten, n);
    assert files[..n] == files && edit.files[..n] == edit.files && rewritten[..n] == rewritten;
  }

  /** A moved edit can be rewritten exactly when it can be at home. */
  lemma MovedRewritesAlike(a: Disk, b: Disk, edit: WorkspaceEdit, root: Path, workspace: Path)
    requires IsRoot(root) && IsAbsolute(workspace) && EditWellFormed(edit) && EditUnder(edit, root)
    requires Mirrors(a, workspace, b, root)
    ensures AllRewrite(a, Retargeted(edit, root, workspace), workspace) <==> AllRewrite(b, edit, root)
  {
    var moved := Retargeted(edit, root, workspace);
    forall i | 0 <= i < |edit.files|
      ensures RewriteOf(a, moved.files[i], moved.encoding, workspace).Ok?
        <==> RewriteOf(b, edit.files[i], edit.encoding, root).Ok?
    {
      MovedFileMirrors(a, b, edit, root, workspace, i);
    }
  }

  lemma AppliedIs(disk: Disk, edit: WorkspaceEdit, root: Path)
    ensures !AllRewrite(disk, edit, root) ==> Applied(disk, edit, root).0 == disk && Applied(disk, edit, root).1.Err?
    ensures AllRewrite(disk, edit, root) ==>
      var planned := Writes(disk, edit, root);
      var (after, r) := RunOps(WriteAll(disk, planned), edit.fileOps, root);
      && Applied(disk, edit, root).0 == after && (Applied(disk, edit, root).1.Ok? <==> r.Ok?)
      && (r.Ok? ==> Applied(disk, edit, root).1 == Ok(RelPaths(planned) + r.value))
  {
    PlanWhenAllRewrite(disk, edit, root);
  }

  /** Applying a moved edit to a checkout does there, file by file, what applying the edit
      does to a base checkout that holds the same; it succeeds exactly when that does, and
      then reports the same changed files. */
  lemma MovedEditMirrors(a: Disk, b: Disk, edit: WorkspaceEdit, root: Path, workspace: Path)
    requires IsRoot(root) && IsAbsolute(workspace) && EditWellFormed(edit) && EditUnder(edit, root)
    requires Mirrors(a, workspace, b, root)
    ensures var (after, r) := Applied(a, Retargeted(edit, root, workspace), workspace);
      var (home, s) := Applied(b, edit, root);
      Mirrors(after, workspace, home, root) && (r.Ok? <==> s.Ok?) && (r.Ok? ==> r == s)
  {
    var moved := Retargeted(edit, root, workspace);
    MovedRewritesAlike(a, b, edit, root, workspace);
    AppliedIs(a, moved, workspace);
    AppliedIs(b, edit, root);
    if AllRewrite(b, edit, root) {
      MovedWritesMirror(a, b, edit, root, workspace);
      MovedEditOpsMirror(WriteAll(a, Writes(a, moved, workspace)), WriteAll(b, Writes(b, edit, root)), edit, root, workspace);
    }
  }

  lemma MovedEditOpsMirror(a: Disk, b: Disk, edit: WorkspaceEdit, root: Path, workspace: Path)
    requires IsRoot(root) && IsAbsolute(workspace) && EditWellFormed(edit) && EditUnder(edit, root)
    requires Mirrors(a, workspace, b, root)
    ensures var (after, r) := RunOps(a, Retargeted(edit, root, workspace).fileOps, workspace);
      var (home, s) := RunOps(b, edit.fileOps, root);
      Mirrors(after, workspace, home, root) && (r.Ok? <==> s.Ok?) && (r.Ok? ==> r == s)
  {
    MovedOpsMirror(a, b, Retargeted(edit, root, workspace).fileOps, edit.fileOps, root, workspace);
  }

  lemma MovedRewritesMirror(a: Disk, b: Disk, edit: WorkspaceEdit, root: Path, workspace: Path)
    requires IsRoot(root) && IsAbsolute(workspace) && EditWellFormed(edit) && EditUnder(edit, root)
    requires Mirrors(a, workspace, b, root)
    requires AllRewrite(a, Retargeted(edit, root, workspace), workspace) && AllRewrite(b, edit, root)
    ensures AllRewritten(a, Retargeted(edit, root, workspace), workspace) == AllRewritten(b, edit, root)
  {
    forall i | 0 <= i < |edit.files|
      ensures RewrittenAt(a, Retargeted(edit, root, workspace), workspace, i) == RewrittenAt(b, edit, root, i)
    {
      MovedFileMirrors(a, b, edit, root, workspace, i);
    }
  }

  lemma MovedWritesMirror(a: Disk, b: Disk, edit: WorkspaceEdit, root: Path, workspace: Path)
    requires IsRoot(root) && IsAbsolute(workspace) && EditWellFormed(edit) && EditUnder(edit, root)
    requires Mirrors(a, workspace, b, root)
    requires AllRewrite(a, Retargeted(edit, root, workspace), workspace) && AllRewrite(b, edit, root)
    ensures var moved, home := Writes(a, Retargeted(edit, root, workspace), workspace), Writes(b, edit, root);
      Mirrors(WriteAll(a, moved), workspace, WriteAll(b, home), root) && RelPaths(moved) == RelPaths(home)
  {
    MovedRewritesMirror(a, b, edit, root, workspace);
    MovedWholePlanMirrors(a, b, edit, root, workspace, AllRewritten(b, edit, root));
  }

  // ---------------------------------------------------------------- a working copy as a base

  lemma TailsDiffer(workspace: Path, root: Path)
    ensures forall p, q :: StartsWith(p, workspace) && StartsWith(q, workspace) && p != q ==>
      root + p[|workspace|..] != root + q[|workspace|..]
  {
    forall p, q | StartsWith(p, workspace) && StartsWith(q, workspace) && p != q
      ensures root + p[|workspace|..] != root + q[|workspace|..]
    {
      BelowInjective(root, p[|workspace|..], q[|workspace|..]);
      assert p == workspace + p[|workspace|..] && q == workspace + q[|workspace|..];
    }
  }

  /** The base checkout if it held what the working copy holds. */
  function CopyAsBase(disk: Disk, workspace: Path, root: Path): Disk {
    TailsDiffer(workspace, root);
    map p | p in disk && StartsWith(p, workspace) :: root + p[|workspace|..] := disk[p]
  }

  lemma CopyMirrors(disk: Disk, workspace: Path, root: Path)
    ensures Mirrors(disk, workspace, CopyAsBase(disk, workspace, root), root)
  {
    var home := CopyAsBase(disk, workspace, root);
    TailsDiffer(workspace, root);
    forall x | !IsAbsolute(x) ensures SameFile(disk, workspace, home, root, x) {
      var p := workspace + x;
      assert p[|workspace|..] == x;
      if p in disk {
        assert root + p[|workspace|..] in home && home[root + p[|workspace|..]] == disk[p];
      }
      if root + x in home {
        var q :| q in disk && StartsWith(q, workspace) && root + q[|workspace|..] == root + x;
        BelowInjective(root, q[|workspace|..], x);
        assert q == p;
      }
    }
  }
}
