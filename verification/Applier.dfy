/** Applying and previewing a workspace edit against a tree of files. */
module Applier {
  import opened Wrappers
  import opened Paths
  import opened Text
  import opened Rewrite

  /** The readable text files, by absolute path. */
  type Disk = map<Path, string>

  datatype FileEdit = FileEdit(path: Path, edits: seq<TextEdit>)

  datatype FileOperation =
    | Create(path: Path)
    | Rename(from: Path, to: Path)
    | Delete(path: Path)

  datatype WorkspaceEdit = WorkspaceEdit(encoding: Encoding, files: seq<FileEdit>, fileOps: seq<FileOperation>)

  datatype Error =
    | NotReadable(path: Path)
    | Rejected(path: Path, why: EditError)

  /** A file's text before and after its edits. */
  datatype Rewritten = Rewritten(original: string, updated: string)

  datatype Planned = Planned(abs: Path, rel: Path, updated: string)

  /** A file's entry in a preview. The rendering of a text difference is abstract:
      it is empty exactly when the two texts are equal. */
  datatype Diff =
    | Empty
    | TextDiff(original: string, updated: string)
    | Created
    | Renamed(from: Path)
    | Deleted

  datatype FileDiff = FileDiff(path: Path, diff: Diff)

  predicate EditWellFormed(edit: WorkspaceEdit) {
    && (forall i :: 0 <= i < |edit.files| ==> WellFormed(edit.files[i].path))
    && (forall i :: 0 <= i < |edit.fileOps| ==> OpWellFormed(edit.fileOps[i]))
  }

  predicate OpWellFormed(op: FileOperation) {
    match op
    case Create(path) => WellFormed(path)
    case Rename(from, to) => WellFormed(from) && WellFormed(to)
    case Delete(path) => WellFormed(path)
  }

  // ---------------------------------------------------------------- planning

  ghost function RewriteOf(disk: Disk, file: FileEdit, enc: Encoding, root: Path): Result<Rewritten, Error> {
    var abs := Resolve(file.path, root);
    if abs !in disk then Err(NotReadable(abs))
    else
      match RewriteText(disk[abs], file.edits, enc)
      case Ok(updated) => Ok(Rewritten(disk[abs], updated))
      case Err(why) => Err(Rejected(abs, why))
  }

  ghost function Rewrites(disk: Disk, edit: WorkspaceEdit, root: Path): (rs: seq<Result<Rewritten, Error>>)
    ensures |rs| == |edit.files|
    ensures forall i :: 0 <= i < |rs| ==> rs[i] == RewriteOf(disk, edit.files[i], edit.encoding, root)
  {
    seq(|edit.files|, i requires 0 <= i < |edit.files| => RewriteOf(disk, edit.files[i], edit.encoding, root))
  }

  /** The writes for the first files: one for each whose text changes, in order. */
  function PlanOf(files: seq<FileEdit>, rewritten: seq<Rewritten>, root: Path): seq<Planned>
    requires |files| == |rewritten|
  {
    if files == [] then []
    else
      var n := |files| - 1;
      PlanOf(files[..n], rewritten[..n], root) +
      if rewritten[n].original == rewritten[n].updated then []
      else [Planned(Resolve(files[n].path, root), Relativize(files[n].path, root), rewritten[n].updated)]
  }

  ghost function Plan(disk: Disk, edit: WorkspaceEdit, root: Path): Result<seq<Planned>, Error> {
    CollectEach(Rewrites(disk, edit, root));
    match Collect(Rewrites(disk, edit, root))
    case Err(error) => Err(error)
    case Ok(rewritten) => Ok(PlanOf(edit.files, rewritten, root))
  }

  // ---------------------------------------------------------------- writing

  function WriteAll(disk: Disk, planned: seq<Planned>): Disk {
    if planned == [] then disk
    else
      var last := planned[|planned| - 1];
      WriteAll(disk, planned[..|planned| - 1])[last.abs := last.updated]
  }

  function RelPaths(planned: seq<Planned>): seq<Path> {
    if planned == [] then []
    else RelPaths(planned[..|planned| - 1]) + [planned[|planned| - 1].rel]
  }

  /** One file operation; `Err` when the file to rename is not there. */
  function RunOp(disk: Disk, op: FileOperation, root: Path): Result<Disk, Error> {
    match op
    case Create(path) =>
      var abs := Resolve(path, root);
      Ok(if abs in disk then disk else disk[abs := ""])
    case Rename(from, to) =>
      var fromAbs, toAbs := Resolve(from, root), Resolve(to, root);
      if fromAbs !in disk then Err(NotReadable(fromAbs))
      else Ok((disk - {fromAbs})[toAbs := disk[fromAbs]])
    case Delete(path) => Ok(disk - {Resolve(path, root)})
  }

  /** The path an operation reports as changed. */
  function Reported(op: FileOperation): Path {
    match op
    case Create(path) => path
    case Rename(_, to) => to
    case Delete(path) => path
  }

  /** The tree after the operations, up to the first that fails. */
  function RunOps(disk: Disk, ops: seq<FileOperation>, root: Path): (r: (Disk, Result<seq<Path>, Error>)) {
    if ops == [] then (disk, Ok([]))
    else
      var n := |ops| - 1;
      var (before, reported) := RunOps(disk, ops[..n], root);
      match reported
      case Err(error) => (before, Err(error))
      case Ok(paths) =>
        match RunOp(before, ops[n], root)
        case Err(error) => (before, Err(error))
        case Ok(after) => (after, Ok(paths + [Relativize(Reported(ops[n]), root)]))
  }

  /** The tree an application leaves and the changed files it reports. */
  ghost function Applied(disk: Disk, edit: WorkspaceEdit, root: Path): (Disk, Result<seq<Path>, Error>) {
    match Plan(disk, edit, root)
    case Err(error) => (disk, Err(error))
    case Ok(planned) =>
      var (after, reported) := RunOps(WriteAll(disk, planned), edit.fileOps, root);
      match reported
      case Err(error) => (after, Err(error))
      case Ok(paths) => (after, Ok(RelPaths(planned) + paths))
  }

  function OpDiff(op: FileOperation, root: Path): FileDiff {
    match op
    case Create(path) => FileDiff(Relativize(path, root), Created)
    case Rename(from, to) => FileDiff(Relativize(to, root), Renamed(Relativize(from, root)))
    case Delete(path) => FileDiff(Relativize(path, root), Deleted)
  }

  function TextEntry(file: FileEdit, after: Rewritten, root: Path): FileDiff {
    FileDiff(Relativize(file.path, root),
      if after.original == after.updated then Empty else TextDiff(after.original, after.updated))
  }

  function TextEntries(files: seq<FileEdit>, rewritten: seq<Rewritten>, root: Path): seq<FileDiff>
    requires |files| == |rewritten|
  {
    if files == [] then []
    else
      var n := |files| - 1;
      TextEntries(files[..n], rewritten[..n], root) + [TextEntry(files[n], rewritten[n], root)]
  }

  function OpEntries(ops: seq<FileOperation>, root: Path): seq<FileDiff> {
    if ops == [] then [] else OpEntries(ops[..|ops| - 1], root) + [OpDiff(ops[|ops| - 1], root)]
  }

  ghost function TextPreview(disk: Disk, edit: WorkspaceEdit, root: Path): Result<seq<FileDiff>, Error> {
    CollectEach(Rewrites(disk, edit, root));
    match Collect(Rewrites(disk, edit, root))
    case Err(error) => Err(error)
    case Ok(rewritten) => Ok(TextEntries(edit.files, rewritten, root))
  }

  ghost function Previewed(disk: Disk, edit: WorkspaceEdit, root: Path): Result<seq<FileDiff>, Error> {
    match TextPreview(disk, edit, root)
    case Err(error) => Err(error)
    case Ok(entries) => Ok(entries + OpEntries(edit.fileOps, root))
  }

  lemma NextFile(files: seq<FileEdit>, rewritten: seq<Rewritten>, after: Rewritten, root: Path)
    requires |rewritten| < |files|
    ensures var n := |rewritten|; var more := rewritten + [after];
      && TextEntries(files[..n + 1], more, root) ==
        TextEntries(files[..n], rewritten, root) + [TextEntry(files[n], after, root)]
      && PlanOf(files[..n + 1], more, root) == PlanOf(files[..n], rewritten, root) +
        if after.original == after.updated then []
        else [Planned(Resolve(files[n].path, root), Relativize(files[n].path, root), after.updated)]
  {
    var n := |rewritten|;
    assert files[..n + 1][..n] == files[..n];
    assert (rewritten + [after])[..n] == rewritten;
  }

  /** Add an entry for each file operation. */
  method AppendOps(entries: seq<FileDiff>, ops: seq<FileOperation>, root: Path) returns (diffs: seq<FileDiff>)
    ensures diffs == entries + OpEntries(ops, root)
  {
    diffs := entries;
    for i := 0 to |ops|
      invariant diffs == entries + OpEntries(ops[..i], root)
    {
      assert ops[..i + 1][..i] == ops[..i];
      diffs := diffs + [OpDiff(ops[i], root)];
    }
    assert ops[..|ops|] == ops;
  }

  /** The files of one or more checkouts, written in place. */
  class WorkingTree {
    var files: Disk

    constructor (initial: Disk)
      ensures files == initial
    {
      files := initial;
    }

    /** Read a file and rewrite it in memory. */
    method RewriteOne(file: FileEdit, enc: Encoding, root: Path) returns (r: Result<Rewritten, Error>)
      ensures r == RewriteOf(files, file, enc, root)
    {
      var abs := Resolve(file.path, root);
      if abs !in files {
        return Err(NotReadable(abs));
      }
      var updated := RewriteFile(files[abs], file.edits, enc);
      match updated {
        case Ok(text) => return Ok(Rewritten(files[abs], text));
        case Err(why) => return Err(Rejected(abs, why));
      }
    }

    method PreviewTexts(edit: WorkspaceEdit, root: Path) returns (r: Result<seq<FileDiff>, Error>)
      ensures r == TextPreview(files, edit, root)
    {
      ghost var rs := Rewrites(files, edit, root);
      var diffs: seq<FileDiff> := [];
      ghost var rewritten: seq<Rewritten> := [];
      for i := 0 to |edit.files|
        invariant |rewritten| == i && Collect(rs[..i]) == Ok(rewritten)
        invariant diffs == TextEntries(edit.files[..i], rewritten, root)
      {
        var after := RewriteOne(edit.files[i], edit.encoding, root);
        CollectNext(rs, i, rewritten);
        if after.Err? {
          return Err(after.error);
        }
        NextFile(edit.files, rewritten, after.value, root);
        rewritten := rewritten + [after.value];
        diffs := diffs + [TextEntry(edit.files[i], after.value, root)];
      }
      assert rs[..|edit.files|] == rs && edit.files[..|edit.files|] == edit.files;
      return Ok(diffs);
    }

    /** The difference each file edit would make, without writing anything. */
    method Preview(edit: WorkspaceEdit, root: Path) returns (r: Result<seq<FileDiff>, Error>)
      ensures r == Previewed(files, edit, root)
    {
      r := PreviewTexts(edit, root);
      if r.Ok? {
        var diffs := AppendOps(r.value, edit.fileOps, root);
        r := Ok(diffs);
      }
    }

    method PlanEdits(edit: WorkspaceEdit, root: Path) returns (r: Result<seq<Planned>, Error>)
      ensures r == Plan(files, edit, root)
    {
      ghost var rs := Rewrites(files, edit, root);
      var planned: seq<Planned> := [];
      ghost var rewritten: seq<Rewritten> := [];
      for i := 0 to |edit.files|
        invariant |rewritten| == i && Collect(rs[..i]) == Ok(rewritten)
        invariant planned == PlanOf(edit.files[..i], rewritten, root)
      {
        var file := edit.files[i];
        var after := RewriteOne(file, edit.encoding, root);
        CollectNext(rs, i, rewritten);
        if after.Err? {
          return Err(after.error);
        }
        NextFile(edit.files, rewritten, after.value, root);
        rewritten := rewritten + [after.value];
        if after.value.original != after.value.updated {
          planned := planned + [Planned(Resolve(file.path, root), Relativize(file.path, root), after.value.updated)];
        }
      }
      assert rs[..|edit.files|] == rs && edit.files[..|edit.files|] == edit.files;
      return Ok(planned);
    }

    /** Apply the edit: plan every rewrite first, then write, then run the file operations. */
    method Apply(edit: WorkspaceEdit, root: Path) returns (r: Result<seq<Path>, Error>)
      modifies this
      ensures (files, r) == Applied(old(files), edit, root)
    {
      var plan := PlanEdits(edit, root);
      if plan.Err? {
        return Err(plan.error);
      }
      var planned := plan.value;
      var changed: seq<Path> := [];
      for i := 0 to |planned|
        invariant files == WriteAll(old(files), planned[..i]) && changed == RelPaths(planned[..i])
      {
        assert planned[..i + 1][..i] == planned[..i];
        files := files[planned[i].abs := planned[i].updated];
        changed := changed + [planned[i].rel];
      }
      assert planned[..|planned|] == planned;
      ghost var written := files;
      var ops, reported := edit.fileOps, [];
      for i := 0 to |ops|
        invariant RunOps(written, ops[..i], root) == (files, Ok(reported))
      {
        assert ops[..i + 1][..i] == ops[..i];
        var after := RunOp(files, ops[i], root);
        if after.Err? {
          OpsStop(written, ops, root, i + 1);
          return Err(after.error);
        }
        files := after.value;
        reported := reported + [Relativize(Reported(ops[i]), root)];
      }
      assert ops[..|ops|] == ops;
      return Ok(changed + reported);
    }
  }

  lemma {:induction false} OpsStop(disk: Disk, ops: seq<FileOperation>, root: Path, n: nat)
    requires n <= |ops| && RunOps(disk, ops[..n], root).1.Err?
    ensures RunOps(disk, ops, root) == RunOps(disk, ops[..n], root)
    decreases |ops| - n
  {
    if n == |ops| {
      assert ops[..n] == ops;
    } else {
      assert ops[..n + 1][..n] == ops[..n];
      OpsStop(disk, ops, root, n + 1);
    }
  }

  // ---------------------------------------------------------------- what applying means

  /** The last text the plan writes to `p`. */
  function LastWrite(planned: seq<Planned>, p: Path): Option<string> {
    if planned == [] then None
    else
      var last := planned[|planned| - 1];
      if last.abs == p then Some(last.updated) else LastWrite(planned[..|planned| - 1], p)
  }

  lemma {:induction false} WriteAllLastWins(disk: Disk, planned: seq<Planned>, p: Path)
    ensures match LastWrite(planned, p)
      case Some(text) => p in WriteAll(disk, planned) && WriteAll(disk, planned)[p] == text
      case None =>
        && (p in WriteAll(disk, planned) <==> p in disk)
        && (p in disk ==> WriteAll(disk, planned)[p] == disk[p])
  {
    if planned != [] {
      WriteAllLastWins(disk, planned[..|planned| - 1], p);
    }
  }

  /** Entry `i` is written to `p`: it names `p` and changes its text. */
  predicate WritesAt(files: seq<FileEdit>, rewritten: seq<Rewritten>, root: Path, i: nat, p: Path)
    requires i < |files| == |rewritten|
  {
    Resolve(files[i].path, root) == p && rewritten[i].original != rewritten[i].updated
  }

  /** Entry `i` is the last one written to `p`. */
  predicate LastWriter(files: seq<FileEdit>, rewritten: seq<Rewritten>, root: Path, i: nat, p: Path)
    requires i < |files| == |rewritten|
  {
    && WritesAt(files, rewritten, root, i, p)
    && forall j :: i < j < |files| ==> !WritesAt(files, rewritten, root, j, p)
  }

  lemma LastWriteAppend(planned: seq<Planned>, w: Planned, p: Path)
    ensures LastWrite(planned + [w], p) == if w.abs == p then Some(w.updated) else LastWrite(planned, p)
  {
    assert (planned + [w])[..|planned|] == planned;
  }

  lemma LastWriteOfNext(files: seq<FileEdit>, rewritten: seq<Rewritten>, root: Path, n: nat, p: Path)
    requires n < |files| == |rewritten|
    ensures LastWrite(PlanOf(files[..n + 1], rewritten[..n + 1], root), p) ==
      if WritesAt(files, rewritten, root, n, p) then Some(rewritten[n].updated)
      else LastWrite(PlanOf(files[..n], rewritten[..n], root), p)
  {
    var before := PlanOf(files[..n], rewritten[..n], root);
    assert files[..n + 1][..n] == files[..n] && rewritten[..n + 1][..n] == rewritten[..n];
    if rewritten[n].original == rewritten[n].updated {
      assert before + [] == before;
    } else {
      LastWriteAppend(before,
        Planned(Resolve(files[n].path, root), Relativize(files[n].path, root), rewritten[n].updated), p);
    }
  }

  /** The last of the first `n` entries that is written to `p`, or -1. */
  lemma {:induction false} LastWriterOf(files: seq<FileEdit>, rewritten: seq<Rewritten>, root: Path, n: nat, p: Path)
    returns (i: int)
    requires n <= |files| == |rewritten|
    ensures -1 <= i < n && (i >= 0 ==> WritesAt(files, rewritten, root, i, p))
    ensures forall j :: i < j < n ==> !WritesAt(files, rewritten, root, j, p)
  {
    if n == 0 || WritesAt(files, rewritten, root, n - 1, p) {
      i := n - 1;
    } else {
      i := LastWriterOf(files, rewritten, root, n - 1, p);
    }
  }

  lemma {:induction false} LastWriteIs(files: seq<FileEdit>, rewritten: seq<Rewritten>, root: Path, n: nat, p: Path,
                                       i: int)
    requires n <= |files| == |rewritten| && -1 <= i < n
    requires i >= 0 ==> WritesAt(files, rewritten, root, i, p)
    requires forall j :: i < j < n ==> !WritesAt(files, rewritten, root, j, p)
    ensures LastWrite(PlanOf(files[..n], rewritten[..n], root), p)
      == if i >= 0 then Some(rewritten[i].updated) else None
  {
    if n > 0 {
      LastWriteOfNext(files, rewritten, root, n - 1, p);
      if i < n - 1 {
        LastWriteIs(files, rewritten, root, n - 1, p, i);
      }
    }
  }

  lemma LastWriteOfPlan(files: seq<FileEdit>, rewritten: seq<Rewritten>, root: Path, p: Path) returns (i: int)
    requires |files| == |rewritten|
    ensures -1 <= i < |files|
    ensures i == -1 ==> LastWrite(PlanOf(files, rewritten, root), p).None?
    ensures i == -1 ==> forall j :: 0 <= j < |files| ==> !WritesAt(files, rewritten, root, j, p)
    ensures i >= 0 ==> LastWrite(PlanOf(files, rewritten, root), p) == Some(rewritten[i].updated)
    ensures i >= 0 ==> LastWriter(files, rewritten, root, i, p)
  {
    i := LastWriterOf(files, rewritten, root, |files|, p);
    LastWriteIs(files, rewritten, root, |files|, p, i);
    assert files[..|files|] == files && rewritten[..|files|] == rewritten;
  }

  ghost predicate SameAt(a: Disk, b: Disk, p: Path) {
    (p in a <==> p in b) && (p in a ==> a[p] == b[p])
  }

  /** An edit that cannot be planned changes nothing. */
  lemma PlanningFailureChangesNothing(disk: Disk, edit: WorkspaceEdit, root: Path)
    requires exists i :: 0 <= i < |edit.files| && RewriteOf(disk, edit.files[i], edit.encoding, root).Err?
    ensures Applied(disk, edit, root).0 == disk
    ensures Applied(disk, edit, root).1.Err? && Previewed(disk, edit, root) == Err(Applied(disk, edit, root).1.error)
  {
    CollectEach(Rewrites(disk, edit, root));
    var i :| 0 <= i < |edit.files| && RewriteOf(disk, edit.files[i], edit.encoding, root).Err?;
    assert Rewrites(disk, edit, root)[i].Err?;
  }

  ghost predicate AllRewrite(disk: Disk, edit: WorkspaceEdit, root: Path) {
    forall i :: 0 <= i < |edit.files| ==> RewriteOf(disk, edit.files[i], edit.encoding, root).Ok?
  }

  ghost function RewrittenAt(disk: Disk, edit: WorkspaceEdit, root: Path, i: nat): Rewritten
    requires AllRewrite(disk, edit, root) && i < |edit.files|
  {
    RewriteOf(disk, edit.files[i], edit.encoding, root).value
  }

  ghost function AllRewritten(disk: Disk, edit: WorkspaceEdit, root: Path): (rs: seq<Rewritten>)
    requires AllRewrite(disk, edit, root)
    ensures |rs| == |edit.files|
    ensures forall i :: 0 <= i < |rs| ==> rs[i] == RewrittenAt(disk, edit, root, i)
  {
    seq(|edit.files|, i requires 0 <= i < |edit.files| => RewrittenAt(disk, edit, root, i))
  }

  lemma CollectedRewrites(disk: Disk, edit: WorkspaceEdit, root: Path)
    ensures AllRewrite(disk, edit, root) ==>
      Collect(Rewrites(disk, edit, root)) == Ok(AllRewritten(disk, edit, root))
    ensures !AllRewrite(disk, edit, root) ==> Collect(Rewrites(disk, edit, root)).Err?
  {
    var rs := Rewrites(disk, edit, root);
    CollectEach(rs);
    match Collect(rs) {
      case Ok(values) =>
        forall i | 0 <= i < |rs| ensures RewriteOf(disk, edit.files[i], edit.encoding, root) == Ok(values[i]) {
          assert rs[i] == Ok(values[i]);
        }
        assert AllRewrite(disk, edit, root);
        assert values == AllRewritten(disk, edit, root);
      case Err(error) =>
        var i :| 0 <= i < |rs| && rs[i] == Err(error);
        assert RewriteOf(disk, edit.files[i], edit.encoding, root) == Err(error);
    }
  }

  /** The writes an edit plans when every file rewrites. */
  ghost function Writes(disk: Disk, edit: WorkspaceEdit, root: Path): seq<Planned>
    requires AllRewrite(disk, edit, root)
  {
    PlanOf(edit.files, AllRewritten(disk, edit, root), root)
  }

  lemma PlanWhenAllRewrite(disk: Disk, edit: WorkspaceEdit, root: Path)
    ensures Plan(disk, edit, root).Ok? <==> AllRewrite(disk, edit, root)
    ensures AllRewrite(disk, edit, root) ==> Plan(disk, edit, root) == Ok(Writes(disk, edit, root))
  {
    CollectedRewrites(disk, edit, root);
  }

  lemma AppliedAfterWrites(disk: Disk, edit: WorkspaceEdit, root: Path, planned: seq<Planned>, p: Path)
    requires Plan(disk, edit, root) == Ok(planned) && UntouchedByOps(edit, root, p)
    ensures SameAt(Applied(disk, edit, root).0, WriteAll(disk, planned), p)
  {
    OpsFrame(WriteAll(disk, planned), edit.fileOps, root, p);
  }

  /** No file operation names `p`. */
  predicate UntouchedByOps(edit: WorkspaceEdit, root: Path, p: Path) {
    !NamedByOps(edit.fileOps, root, p)
  }

  /** A path no file operation names ends with the text of the last entry that names
      it and changes it, computed from what the file held before the call; a path no
      entry changes is as it was. */
  lemma LaterEntryWins(disk: Disk, edit: WorkspaceEdit, root: Path, p: Path) returns (i: int)
    requires AllRewrite(disk, edit, root) && UntouchedByOps(edit, root, p)
    ensures -1 <= i < |edit.files|
    ensures i == -1 ==> SameAt(Applied(disk, edit, root).0, disk, p)
    ensures i >= 0 ==> Resolve(edit.files[i].path, root) == p && Lands(disk, edit, root, i)
    ensures forall j :: i < j < |edit.files| ==> !ChangesText(disk, edit, root, j, p)
  {
    PlanWhenAllRewrite(disk, edit, root);
    AppliedAfterWrites(disk, edit, root, Writes(disk, edit, root), p);
    WriteAllLastWins(disk, Writes(disk, edit, root), p);
    i := LastChange(disk, edit, root, p);
  }

  /** Entry `i` names `p` and changes its text. */
  ghost predicate ChangesText(disk: Disk, edit: WorkspaceEdit, root: Path, i: nat, p: Path)
    requires i < |edit.files|
  {
    var r := RewriteOf(disk, edit.files[i], edit.encoding, root);
    Resolve(edit.files[i].path, root) == p && r.Ok? && r.value.original != r.value.updated
  }

  /** The last entry that changes `p`, or -1. */
  lemma LastChange(disk: Disk, edit: WorkspaceEdit, root: Path, p: Path) returns (i: int)
    requires AllRewrite(disk, edit, root)
    ensures -1 <= i < |edit.files|
    ensures i == -1 <==> LastWrite(Writes(disk, edit, root), p).None?
    ensures i >= 0 ==> ChangesText(disk, edit, root, i, p)
    ensures i >= 0 ==> LastWrite(Writes(disk, edit, root), p) == Some(RewrittenAt(disk, edit, root, i).updated)
    ensures forall j :: i < j < |edit.files| ==> !ChangesText(disk, edit, root, j, p)
  {
    var rewritten := AllRewritten(disk, edit, root);
    i := LastWriteOfPlan(edit.files, rewritten, root, p);
    forall j | 0 <= j < |edit.files|
      ensures ChangesText(disk, edit, root, j, p) <==> WritesAt(edit.files, rewritten, root, j, p)
    {
      assert rewritten[j] == RewrittenAt(disk, edit, root, j);
    }
  }

  /** After the call, the file entry `i` names holds the rewrite of entry `i`. */
  ghost predicate Lands(disk: Disk, edit: WorkspaceEdit, root: Path, i: nat)
    requires AllRewrite(disk, edit, root) && i < |edit.files|
  {
    var p, after := Resolve(edit.files[i].path, root), Applied(disk, edit, root).0;
    p in after && after[p] == RewrittenAt(disk, edit, root, i).updated
  }

  /** Entries `i` and `j` name one path but rewrite it differently. */
  ghost predicate Disagree(disk: Disk, edit: WorkspaceEdit, root: Path, i: nat, j: nat)
    requires AllRewrite(disk, edit, root) && i < |edit.files| && j < |edit.files|
  {
    && Resolve(edit.files[i].path, root) == Resolve(edit.files[j].path, root)
    && RewrittenAt(disk, edit, root, i).updated != RewrittenAt(disk, edit, root, j).updated
  }

  lemma AgreedEntryLands(disk: Disk, edit: WorkspaceEdit, root: Path, i: nat)
    requires AllRewrite(disk, edit, root) && i < |edit.files|
    requires UntouchedByOps(edit, root, Resolve(edit.files[i].path, root))
    requires forall j :: 0 <= j < |edit.files| ==> !Disagree(disk, edit, root, i, j)
    ensures Lands(disk, edit, root, i)
  {
    TextIsWritten(disk, edit, root, i);
    PlanWhenAllRewrite(disk, edit, root);
    AppliedAfterWrites(disk, edit, root, Writes(disk, edit, root), Resolve(edit.files[i].path, root));
  }

  /** Every entry's rewrite is what its file ends up holding exactly when entries
      naming one path agree on the result; entries with distinct paths always do. */
  lemma EveryRewriteLands(disk: Disk, edit: WorkspaceEdit, root: Path)
    requires AllRewrite(disk, edit, root)
    requires forall i :: 0 <= i < |edit.files| ==> UntouchedByOps(edit, root, Resolve(edit.files[i].path, root))
    ensures (forall i :: 0 <= i < |edit.files| ==> Lands(disk, edit, root, i))
      <==> forall i, j :: 0 <= i < |edit.files| && 0 <= j < |edit.files| ==> !Disagree(disk, edit, root, i, j)
  {
    if forall i :: 0 <= i < |edit.files| ==> Lands(disk, edit, root, i) {
      forall i, j | 0 <= i < |edit.files| && 0 <= j < |edit.files| ensures !Disagree(disk, edit, root, i, j) {
        assert Lands(disk, edit, root, i) && Lands(disk, edit, root, j);
      }
    }
    if forall i, j :: 0 <= i < |edit.files| && 0 <= j < |edit.files| ==> !Disagree(disk, edit, root, i, j) {
      forall i | 0 <= i < |edit.files| ensures Lands(disk, edit, root, i) {
        AgreedEntryLands(disk, edit, root, i);
      }
    }
  }

  lemma {:induction false} TextEntriesAt(files: seq<FileEdit>, rewritten: seq<Rewritten>, root: Path)
    requires |files| == |rewritten|
    ensures |TextEntries(files, rewritten, root)| == |files|
    ensures forall i :: 0 <= i < |files| ==>
      TextEntries(files, rewritten, root)[i] == TextEntry(files[i], rewritten[i], root)
  {
    if files != [] {
      TextEntriesAt(files[..|files| - 1], rewritten[..|files| - 1], root);
    }
  }

  /** Entry `i` of a preview shows a text difference for `p`. */
  ghost predicate ShowsChange(edit: WorkspaceEdit, entries: seq<FileDiff>, root: Path, i: nat, p: Path)
    requires i < |edit.files| <= |entries|
  {
    Resolve(edit.files[i].path, root) == p && entries[i].diff != Empty
  }

  /** A preview succeeds exactly when planning does, and shows a non-empty text
      difference for exactly the files an application would write. */
  lemma PreviewShowsWhatApplyWrites(disk: Disk, edit: WorkspaceEdit, root: Path, p: Path)
    ensures Previewed(disk, edit, root).Ok? <==> Plan(disk, edit, root).Ok?
    ensures Previewed(disk, edit, root).Ok? ==>
      var entries := Previewed(disk, edit, root).value;
      && |entries| == |edit.files| + |edit.fileOps|
      && (LastWrite(Plan(disk, edit, root).value, p).Some?
          <==> exists i :: 0 <= i < |edit.files| && ShowsChange(edit, entries, root, i, p))
  {
    PlanWhenAllRewrite(disk, edit, root);
    CollectedRewrites(disk, edit, root);
    if AllRewrite(disk, edit, root) {
      var rewritten := AllRewritten(disk, edit, root);
      TextEntriesAt(edit.files, rewritten, root);
      OpEntriesLength(edit.fileOps, root);
      var entries := Previewed(disk, edit, root).value;
      forall i | 0 <= i < |edit.files|
        ensures ShowsChange(edit, entries, root, i, p) <==> WritesAt(edit.files, rewritten, root, i, p)
      {
        assert entries[i] == TextEntry(edit.files[i], rewritten[i], root);
      }
      var k := LastWriteOfPlan(edit.files, rewritten, root, p);
      if k >= 0 {
        assert WritesAt(edit.files, rewritten, root, k, p) && ShowsChange(edit, entries, root, k, p);
      }
    }
  }

  /** A preview's entry for a file operation: what happens, and to which path. */
  predicate ShowsOp(entry: FileDiff, op: FileOperation, root: Path) {
    match op
    case Create(path) => entry.diff == Created && root + entry.path == Resolve(path, root)
    case Rename(from, to) =>
      && entry.diff.Renamed? && root + entry.diff.from == Resolve(from, root) && root + entry.path == Resolve(to, root)
    case Delete(path) => entry.diff == Deleted && root + entry.path == Resolve(path, root)
  }

  /** The paths the operation names lie below the root. */
  predicate OpBelow(op: FileOperation, root: Path) {
    forall p :: p in OpPaths(op, root) ==> StartsWith(p, root)
  }

  lemma OpDiffShows(op: FileOperation, root: Path)
    requires OpBelow(op, root)
    ensures ShowsOp(OpDiff(op, root), op, root)
  {
    forall p | p in OpPaths(op, root) ensures root + p[|root|..] == p {
      assert StartsWith(p, root);
    }
    match op {
      case Create(path) => assert Resolve(path, root) in OpPaths(op, root);
      case Rename(from, to) =>
        assert Resolve(from, root) in OpPaths(op, root) && Resolve(to, root) in OpPaths(op, root);
      case Delete(path) => assert Resolve(path, root) in OpPaths(op, root);
    }
  }

  lemma {:induction false} OpEntriesShow(ops: seq<FileOperation>, root: Path, k: nat)
    requires k < |ops| && OpBelow(ops[k], root)
    ensures |OpEntries(ops, root)| == |ops| && ShowsOp(OpEntries(ops, root)[k], ops[k], root)
  {
    OpEntriesLength(ops, root);
    OpEntriesLength(ops[..|ops| - 1], root);
    if k < |ops| - 1 {
      OpEntriesShow(ops[..|ops| - 1], root, k);
    } else {
      OpDiffShows(ops[k], root);
    }
  }

  /** A preview's entry for a file: under its path, the text on disk and what the edits make
      of it. */
  ghost predicate ShowsText(entry: FileDiff, disk: Disk, file: FileEdit, enc: Encoding, root: Path) {
    var p := Resolve(file.path, root);
    && (StartsWith(p, root) ==> root + entry.path == p)
    && p in disk && RewriteText(disk[p], file.edits, enc).Ok?
    && var updated := RewriteText(disk[p], file.edits, enc).value;
    entry.diff == if updated == disk[p] then Empty else TextDiff(disk[p], updated)
  }

  lemma TextEntryShows(disk: Disk, file: FileEdit, enc: Encoding, root: Path)
    requires RewriteOf(disk, file, enc, root).Ok?
    ensures ShowsText(TextEntry(file, RewriteOf(disk, file, enc, root).value, root), disk, file, enc, root)
  {
    RelativizeExactly(file.path, root);
  }

  lemma PreviewEntries(disk: Disk, edit: WorkspaceEdit, root: Path, entries: seq<FileDiff>)
    requires AllRewrite(disk, edit, root)
    requires entries == TextEntries(edit.files, AllRewritten(disk, edit, root), root) + OpEntries(edit.fileOps, root)
    ensures |entries| == |edit.files| + |edit.fileOps|
    ensures forall i :: 0 <= i < |edit.files| ==> ShowsText(entries[i], disk, edit.files[i], edit.encoding, root)
  {
    TextEntriesAt(edit.files, AllRewritten(disk, edit, root), root);
    OpEntriesLength(edit.fileOps, root);
    forall i | 0 <= i < |edit.files| ensures ShowsText(entries[i], disk, edit.files[i], edit.encoding, root) {
      TextEntryShows(disk, edit.files[i], edit.encoding, root);
      assert entries[i] == TextEntry(edit.files[i], RewrittenAt(disk, edit, root, i), root);
    }
  }

  /** Entry `i` of a preview shows what the edit makes of file `i`, and the entries behind
      show the file operations one by one. */
  lemma PreviewShowsEachEntry(disk: Disk, edit: WorkspaceEdit, root: Path)
    requires AllRewrite(disk, edit, root)
    ensures Previewed(disk, edit, root).Ok?
    ensures var entries, n := Previewed(disk, edit, root).value, |edit.files|;
      && |entries| == n + |edit.fileOps|
      && (forall i :: 0 <= i < n ==> ShowsText(entries[i], disk, edit.files[i], edit.encoding, root))
      && (forall k :: 0 <= k < |edit.fileOps| && OpBelow(edit.fileOps[k], root) ==>
        ShowsOp(entries[n + k], edit.fileOps[k], root))
  {
    CollectedRewrites(disk, edit, root);
    var texts := TextEntries(edit.files, AllRewritten(disk, edit, root), root);
    TextEntriesAt(edit.files, AllRewritten(disk, edit, root), root);
    PreviewEntries(disk, edit, root, texts + OpEntries(edit.fileOps, root));
    OperationEntries(texts, edit.fileOps, root);
  }

  lemma OperationEntries(texts: seq<FileDiff>, ops: seq<FileOperation>, root: Path)
    ensures var entries := texts + OpEntries(ops, root);
      |entries| == |texts| + |ops| && forall k :: 0 <= k < |ops| && OpBelow(ops[k], root) ==>
        ShowsOp(entries[|texts| + k], ops[k], root)
  {
    OpEntriesLength(ops, root);
    forall k | 0 <= k < |ops| && OpBelow(ops[k], root)
      ensures ShowsOp((texts + OpEntries(ops, root))[|texts| + k], ops[k], root)
    {
      OpEntriesShow(ops, root, k);
    }
  }

  lemma {:induction false} OpEntriesLength(ops: seq<FileOperation>, root: Path)
    ensures |OpEntries(ops, root)| == |ops|
  {
    if ops != [] {
      OpEntriesLength(ops[..|ops| - 1], root);
    }
  }

  // Where an edit can reach

  /** The absolute paths a file operation may change. */
  function OpPaths(op: FileOperation, root: Path): set<Path> {
    match op
    case Create(path) => {Resolve(path, root)}
    case Rename(from, to) => {Resolve(from, root), Resolve(to, root)}
    case Delete(path) => {Resolve(path, root)}
  }

  /** Some operation names `p`. */
  predicate NamedByOps(ops: seq<FileOperation>, root: Path, p: Path) {
    exists i :: 0 <= i < |ops| && p in OpPaths(ops[i], root)
  }

  /** `p` is the path of a file edit or of a file operation. */
  ghost predicate Touches(edit: WorkspaceEdit, root: Path, p: Path) {
    || (exists i :: 0 <= i < |edit.files| && Resolve(edit.files[i].path, root) == p)
    || NamedByOps(edit.fileOps, root, p)
  }

  lemma {:induction false} OpsFrame(disk: Disk, ops: seq<FileOperation>, root: Path, p: Path)
    requires forall i :: 0 <= i < |ops| ==> p !in OpPaths(ops[i], root)
    ensures SameAt(RunOps(disk, ops, root).0, disk, p)
  {
    if ops != [] {
      OpsFrame(disk, ops[..|ops| - 1], root, p);
    }
  }

  /** Whatever the outcome, paths the edit does not name are unchanged. */
  lemma ApplyFrame(disk: Disk, edit: WorkspaceEdit, root: Path, p: Path)
    requires !Touches(edit, root, p)
    ensures SameAt(Applied(disk, edit, root).0, disk, p)
  {
    PlanWhenAllRewrite(disk, edit, root);
    if AllRewrite(disk, edit, root) {
      var rewritten, planned := AllRewritten(disk, edit, root), Writes(disk, edit, root);
      WriteAllLastWins(disk, planned, p);
      var k := LastWriteOfPlan(edit.files, rewritten, root, p);
      OpsFrame(WriteAll(disk, planned), edit.fileOps, root, p);
    }
  }

  lemma LastOp(disk: Disk, ops: seq<FileOperation>, root: Path)
    requires ops != [] && RunOps(disk, ops, root).1.Ok?
    ensures RunOps(disk, ops[..|ops| - 1], root).1.Ok?
    ensures RunOp(RunOps(disk, ops[..|ops| - 1], root).0, ops[|ops| - 1], root) == Ok(RunOps(disk, ops, root).0)
  {
  }

  /** Operation `k` renames `p` to `q`, and no other operation names either. */
  predicate Carries(ops: seq<FileOperation>, root: Path, k: nat, p: Path, q: Path)
    requires k < |ops|
  {
    && ops[k].Rename? && Resolve(ops[k].from, root) == p && Resolve(ops[k].to, root) == q && p != q
    && forall j :: 0 <= j < |ops| && j != k ==> p !in OpPaths(ops[j], root) && q !in OpPaths(ops[j], root)
  }

  /** Such a file is carried to its new path whatever else the operations do. */
  lemma {:induction false} OpsCarry(disk: Disk, ops: seq<FileOperation>, root: Path, k: nat, p: Path, q: Path)
    requires k < |ops| && Carries(ops, root, k, p, q) && RunOps(disk, ops, root).1.Ok?
    ensures p in disk && p !in RunOps(disk, ops, root).0
    ensures q in RunOps(disk, ops, root).0 && RunOps(disk, ops, root).0[q] == disk[p]
  {
    var n := |ops| - 1;
    LastOp(disk, ops, root);
    if k == n {
      OpsFrame(disk, ops[..n], root, p);
    } else {
      OpsCarry(disk, ops[..n], root, k, p, q);
    }
  }

  /** Once the text edits are written, an entry no other disagrees with is in place. */
  lemma TextIsWritten(disk: Disk, edit: WorkspaceEdit, root: Path, i: nat)
    requires AllRewrite(disk, edit, root) && i < |edit.files|
    requires forall j :: 0 <= j < |edit.files| ==> !Disagree(disk, edit, root, i, j)
    ensures var p, written := Resolve(edit.files[i].path, root), WriteAll(disk, Writes(disk, edit, root));
      p in written && written[p] == RewrittenAt(disk, edit, root, i).updated
  {
    var rewritten, planned := AllRewritten(disk, edit, root), Writes(disk, edit, root);
    var p := Resolve(edit.files[i].path, root);
    WriteAllLastWins(disk, planned, p);
    var k := LastWriteOfPlan(edit.files, rewritten, root, p);
    assert k >= 0 ==> !Disagree(disk, edit, root, i, k);
    assert k == -1 ==> !WritesAt(edit.files, rewritten, root, i, p);
  }

  /** Text edits land before file operations: a file that is edited and renamed, among
      any other operations, arrives at its new path with the edited text, and is gone
      from the old one. */
  lemma EditedThenRenamed(disk: Disk, edit: WorkspaceEdit, root: Path, i: nat, k: nat, q: Path)
    requires AllRewrite(disk, edit, root) && Applied(disk, edit, root).1.Ok?
    requires i < |edit.files| && k < |edit.fileOps|
    requires Carries(edit.fileOps, root, k, Resolve(edit.files[i].path, root), q)
    requires forall j :: 0 <= j < |edit.files| ==> !Disagree(disk, edit, root, i, j)
    ensures var after := Applied(disk, edit, root).0;
      && q in after && after[q] == RewrittenAt(disk, edit, root, i).updated
      && Resolve(edit.files[i].path, root) !in after
  {
    PlanWhenAllRewrite(disk, edit, root);
    TextIsWritten(disk, edit, root, i);
    OpsCarry(WriteAll(disk, Writes(disk, edit, root)), edit.fileOps, root, k, Resolve(edit.files[i].path, root), q);
  }

  // What is reported, in which order

  /** `paths` are reported for `ops` one by one: where a file was created, went, or was. */
  predicate ReportsEach(paths: seq<Path>, ops: seq<FileOperation>, root: Path) {
    |paths| == |ops| && forall k :: 0 <= k < |ops| ==>
      match ops[k]
      case Create(path) => Resolve(paths[k], root) == Resolve(path, root)
      case Rename(_, to) => Resolve(paths[k], root) == Resolve(to, root)
      case Delete(path) => Resolve(paths[k], root) == Resolve(path, root)
  }

  lemma ReportsOneMore(paths: seq<Path>, p: Path, ops: seq<FileOperation>, root: Path)
    requires ops != [] && ReportsEach(paths, ops[..|ops| - 1], root)
    requires Resolve(p, root) == Resolve(Reported(ops[|ops| - 1]), root)
    ensures ReportsEach(paths + [p], ops, root)
  {
    forall k | 0 <= k < |ops| - 1 ensures (paths + [p])[k] == paths[k] && ops[k] == ops[..|ops| - 1][k] {
    }
  }

  lemma {:induction false} OpsReportEach(disk: Disk, ops: seq<FileOperation>, root: Path)
    requires IsRoot(root) && RunOps(disk, ops, root).1.Ok?
    requires forall k :: 0 <= k < |ops| ==> OpWellFormed(ops[k])
    ensures ReportsEach(RunOps(disk, ops, root).1.value, ops, root)
  {
    if ops != [] {
      var n := |ops| - 1;
      OpsReportEach(disk, ops[..n], root);
      ResolveRelativize(Reported(ops[n]), root);
      ReportsOneMore(RunOps(disk, ops[..n], root).1.value, Relativize(Reported(ops[n]), root), ops, root);
    }
  }

  lemma PlanNext(files: seq<FileEdit>, rewritten: seq<Rewritten>, root: Path, k: nat)
    requires k < |files| == |rewritten|
    ensures PlanOf(files[..k + 1], rewritten[..k + 1], root) == PlanOf(files[..k], rewritten[..k], root)
      + if rewritten[k].original == rewritten[k].updated then []
        else [Planned(Resolve(files[k].path, root), Relativize(files[k].path, root), rewritten[k].updated)]
  {
    assert files[..k + 1][..k] == files[..k] && rewritten[..k + 1][..k] == rewritten[..k];
  }

  lemma WriteNext(disk: Disk, planned: seq<Planned>, w: Planned)
    ensures WriteAll(disk, planned + [w]) == WriteAll(disk, planned)[w.abs := w.updated]
    ensures RelPaths(planned + [w]) == RelPaths(planned) + [w.rel]
  {
    assert (planned + [w])[..|planned|] == planned;
  }

  /** The entries `indexes` are those of the first `n` that change a text, in order. */
  ghost predicate ChangedInOrder(rewritten: seq<Rewritten>, indexes: seq<nat>, n: nat)
    requires n <= |rewritten|
  {
    && (forall k :: 0 <= k < |indexes| ==>
      indexes[k] < n && rewritten[indexes[k]].original != rewritten[indexes[k]].updated)
    && (forall i :: 0 <= i < n && rewritten[i].original != rewritten[i].updated ==> i in indexes)
    && (forall j, k :: 0 <= j < k < |indexes| ==> indexes[j] < indexes[k])
  }

  lemma ChangedOneMore(rewritten: seq<Rewritten>, indexes: seq<nat>, n: nat)
    requires n < |rewritten| && ChangedInOrder(rewritten, indexes, n)
    ensures rewritten[n].original == rewritten[n].updated ==> ChangedInOrder(rewritten, indexes, n + 1)
    ensures rewritten[n].original != rewritten[n].updated ==> ChangedInOrder(rewritten, indexes + [n], n + 1)
  {
  }

  /** `paths` are those of the entries `indexes`. */
  predicate NamesEntries(paths: seq<Path>, files: seq<FileEdit>, indexes: seq<nat>, root: Path) {
    |paths| == |indexes| && forall k :: 0 <= k < |indexes| ==>
      indexes[k] < |files| && paths[k] == Relativize(files[indexes[k]].path, root)
  }

  lemma NamesOneMore(paths: seq<Path>, files: seq<FileEdit>, indexes: seq<nat>, root: Path, m: nat)
    requires NamesEntries(paths, files, indexes, root) && m < |files|
    ensures NamesEntries(paths + [Relativize(files[m].path, root)], files, indexes + [m], root)
  {
  }

  lemma {:induction false} PlanInOrder(files: seq<FileEdit>, rewritten: seq<Rewritten>, root: Path, n: nat)
    returns (indexes: seq<nat>)
    requires n <= |files| == |rewritten|
    ensures ChangedInOrder(rewritten, indexes, n)
    ensures NamesEntries(RelPaths(PlanOf(files[..n], rewritten[..n], root)), files, indexes, root)
  {
    if n == 0 {
      indexes := [];
    } else {
      var m := n - 1;
      indexes := PlanInOrder(files, rewritten, root, m);
      var before := PlanOf(files[..m], rewritten[..m], root);
      PlanNext(files, rewritten, root, m);
      ChangedOneMore(rewritten, indexes, m);
      if rewritten[m].original == rewritten[m].updated {
        assert before + [] == before;
      } else {
        WriteNext(map[], before,
          Planned(Resolve(files[m].path, root), Relativize(files[m].path, root), rewritten[m].updated));
        NamesOneMore(RelPaths(before), files, indexes, root, m);
        indexes := indexes + [m];
      }
    }
  }

  /** A successful application reports first the files whose text changed, in the order of
      the edit, each once for each entry, and then one path for each file operation. */
  lemma ReportsInOrder(disk: Disk, edit: WorkspaceEdit, root: Path)
    returns (indexes: seq<nat>, changed: seq<Path>, operated: seq<Path>)
    requires IsRoot(root) && Applied(disk, edit, root).1.Ok?
    requires EditWellFormed(edit)
    ensures Applied(disk, edit, root).1.value == changed + operated
    ensures AllRewrite(disk, edit, root) && ChangedInOrder(AllRewritten(disk, edit, root), indexes, |edit.files|)
    ensures |changed| == |indexes| && forall k :: 0 <= k < |indexes| ==>
      Resolve(changed[k], root) == Resolve(edit.files[indexes[k]].path, root)
    ensures ReportsEach(operated, edit.fileOps, root)
  {
    PlanWhenAllRewrite(disk, edit, root);
    var rewritten, written := AllRewritten(disk, edit, root), WriteAll(disk, Writes(disk, edit, root));
    var n := |edit.files|;
    indexes := PlanInOrder(edit.files, rewritten, root, n);
    assert edit.files[..n] == edit.files && rewritten[..n] == rewritten;
    changed, operated := RelPaths(Writes(disk, edit, root)), RunOps(written, edit.fileOps, root).1.value;
    forall k | 0 <= k < |indexes| ensures Resolve(changed[k], root) == Resolve(edit.files[indexes[k]].path, root) {
      ResolveRelativize(edit.files[indexes[k]].path, root);
    }
    OpsReportEach(written, edit.fileOps, root);
  }

  /** What one operation does to each path. */
  lemma OpDoes(disk: Disk, op: FileOperation, root: Path, q: Path)
    ensures RunOp(disk, op, root).Ok? <==> !op.Rename? || Resolve(op.from, root) in disk
    ensures RunOp(disk, op, root).Err? ==> RunOp(disk, op, root) == Err(NotReadable(Resolve(op.from, root)))
    ensures RunOp(disk, op, root).Ok? ==>
      var now := FileAt(RunOp(disk, op, root).value, q);
      match op
      case Create(path) => now == if q == Resolve(path, root) && q !in disk then Some("") else FileAt(disk, q)
      case Rename(from, to) =>
        && (q == Resolve(to, root) ==> now == FileAt(disk, Resolve(from, root)))
        && (q == Resolve(from, root) && q != Resolve(to, root) ==> now == None)
        && (q != Resolve(from, root) && q != Resolve(to, root) ==> now == FileAt(disk, q))
      case Delete(path) => now == if q == Resolve(path, root) then None else FileAt(disk, q)
  {
  }

  // Where every file comes from

  function FileAt(disk: Disk, p: Path): Option<string> {
    if p in disk then Some(disk[p]) else None
  }

  /** What file operations put at a path: nothing, a new empty file, or the file that
      was at another path, or this one, before them. */
  datatype Origin = Nowhere | Blank | From(path: Path)

  /** The origin of what is at `p` once `ops` ran over a tree that has `files`. */
  function OriginOf(files: set<Path>, ops: seq<FileOperation>, root: Path, p: Path): Origin {
    if ops == [] then if p in files then From(p) else Nowhere
    else
      var before := ops[..|ops| - 1];
      match ops[|ops| - 1]
      case Create(path) =>
        var there := OriginOf(files, before, root, p);
        if Resolve(path, root) == p && there == Nowhere then Blank else there
      case Rename(from, to) =>
        if Resolve(to, root) == p then OriginOf(files, before, root, Resolve(from, root))
        else if Resolve(from, root) == p then Nowhere
        else OriginOf(files, before, root, p)
      case Delete(path) => if Resolve(path, root) == p then Nowhere else OriginOf(files, before, root, p)
  }

  /** Operation `i`, when its turn comes, finds the file it is to rename. */
  predicate FindsSource(files: set<Path>, ops: seq<FileOperation>, root: Path, i: nat)
    requires i < |ops|
  {
    ops[i].Rename? ==> OriginOf(files, ops[..i], root, Resolve(ops[i].from, root)) != Nowhere
  }

  /** How many operations run: all before the first rename that does not find its file. */
  function Ran(files: set<Path>, ops: seq<FileOperation>, root: Path): (k: nat)
    ensures k <= |ops| && (k < |ops| ==> !FindsSource(files, ops, root, k))
    ensures forall i :: 0 <= i < k ==> FindsSource(files, ops, root, i)
  {
    RanFrom(files, ops, root, 0)
  }

  function RanFrom(files: set<Path>, ops: seq<FileOperation>, root: Path, i: nat): (k: nat)
    requires i <= |ops|
    ensures i <= k <= |ops| && (k < |ops| ==> !FindsSource(files, ops, root, k))
    ensures forall j :: i <= j < k ==> FindsSource(files, ops, root, j)
    decreases |ops| - i
  {
    if i == |ops| || !FindsSource(files, ops, root, i) then i else RanFrom(files, ops, root, i + 1)
  }

  /** The text that is at a path with this origin. */
  function TextFrom(disk: Disk, origin: Origin): Option<string> {
    match origin
    case Nowhere => None
    case Blank => Some("")
    case From(q) => FileAt(disk, q)
  }

  lemma {:induction false} OriginExists(files: set<Path>, ops: seq<FileOperation>, root: Path, p: Path)
    ensures OriginOf(files, ops, root, p).From? ==> OriginOf(files, ops, root, p).path in files
  {
    if ops != [] {
      var before, op := ops[..|ops| - 1], ops[|ops| - 1];
      OriginExists(files, before, root, p);
      if op.Rename? {
        OriginExists(files, before, root, Resolve(op.from, root));
      }
    }
  }

  /** `disk` holds at `p` the text of its origin in `first`. */
  predicate HoldsOrigin(first: Disk, ops: seq<FileOperation>, root: Path, disk: Disk, p: Path) {
    FileAt(disk, p) == TextFrom(first, OriginOf(first.Keys, ops, root, p))
  }

  lemma OriginThere(first: Disk, ops: seq<FileOperation>, root: Path, disk: Disk, p: Path)
    requires HoldsOrigin(first, ops, root, disk, p)
    ensures p in disk <==> OriginOf(first.Keys, ops, root, p) != Nowhere
  {
    OriginExists(first.Keys, ops, root, p);
  }

  /** One more operation moves texts as the origins say. */
  lemma OpMovesTexts(first: Disk, ops: seq<FileOperation>, root: Path, before: Disk, after: Disk, p: Path)
    requires ops != [] && RunOp(before, ops[|ops| - 1], root) == Ok(after)
    requires HoldsOrigin(first, ops[..|ops| - 1], root, before, p)
    requires ops[|ops| - 1].Rename? ==>
      HoldsOrigin(first, ops[..|ops| - 1], root, before, Resolve(ops[|ops| - 1].from, root))
    ensures HoldsOrigin(first, ops, root, after, p)
  {
    OriginThere(first, ops[..|ops| - 1], root, before, p);
  }

  /** Operations that find their files run, and what they leave at any path is what its
      origin held before them: texts are moved and never altered. */
  lemma {:induction false} OpsMoveTexts(disk: Disk, ops: seq<FileOperation>, root: Path, p: Path)
    requires forall i :: 0 <= i < |ops| ==> FindsSource(disk.Keys, ops, root, i)
    ensures RunOps(disk, ops, root).1.Ok?
    ensures HoldsOrigin(disk, ops, root, RunOps(disk, ops, root).0, p)
  {
    if ops != [] {
      var n, op := |ops| - 1, ops[|ops| - 1];
      forall i | 0 <= i < n ensures FindsSource(disk.Keys, ops[..n], root, i) {
        assert ops[..n][..i] == ops[..i] && FindsSource(disk.Keys, ops, root, i);
      }
      OpsMoveTexts(disk, ops[..n], root, p);
      var before := RunOps(disk, ops[..n], root).0;
      if op.Rename? {
        assert FindsSource(disk.Keys, ops, root, n);
        OpsMoveTexts(disk, ops[..n], root, Resolve(op.from, root));
        OriginThere(disk, ops[..n], root, before, Resolve(op.from, root));
      }
      OpMovesTexts(disk, ops, root, before, RunOp(before, op, root).value, p);
    }
  }

  /** File operations run up to the first rename that does not find its file, and all
      run exactly when there is none. */
  lemma OpsRunExactly(disk: Disk, ops: seq<FileOperation>, root: Path, p: Path)
    ensures var k := Ran(disk.Keys, ops, root);
      && (RunOps(disk, ops, root).1.Ok? <==> k == |ops|)
      && HoldsOrigin(disk, ops[..k], root, RunOps(disk, ops, root).0, p)
  {
    var k := Ran(disk.Keys, ops, root);
    forall i | 0 <= i < k ensures FindsSource(disk.Keys, ops[..k], root, i) {
      assert ops[..k][..i] == ops[..i] && FindsSource(disk.Keys, ops, root, i);
    }
    OpsMoveTexts(disk, ops[..k], root, p);
    if k < |ops| {
      var from := Resolve(ops[k].from, root);
      OpsMoveTexts(disk, ops[..k], root, from);
      assert from !in RunOps(disk, ops[..k], root).0;
      assert ops[..k + 1][..k] == ops[..k];
      OpsStop(disk, ops, root, k + 1);
    } else {
      assert ops[..k] == ops;
    }
  }

  /** An application succeeds: every file can be read and rewritten, and every rename
      finds its file when its turn comes. */
  ghost predicate Succeeds(disk: Disk, edit: WorkspaceEdit, root: Path) {
    AllRewrite(disk, edit, root) && Ran(disk.Keys, edit.fileOps, root) == |edit.fileOps|
  }

  /** What the text edits make of the file at `p`. */
  ghost function Edited(disk: Disk, edit: WorkspaceEdit, root: Path, p: Path): Option<string>
    requires AllRewrite(disk, edit, root)
  {
    match LastWrite(Writes(disk, edit, root), p)
    case Some(text) => Some(text)
    case None => FileAt(disk, p)
  }

  /** Where what an application leaves at `p` was before its file operations. */
  function Source(disk: Disk, edit: WorkspaceEdit, root: Path, p: Path): Origin {
    OriginOf(disk.Keys, edit.fileOps[..Ran(disk.Keys, edit.fileOps, root)], root, p)
  }

  lemma WritesKeepFiles(disk: Disk, edit: WorkspaceEdit, root: Path, p: Path)
    requires AllRewrite(disk, edit, root)
    ensures p in WriteAll(disk, Writes(disk, edit, root)) <==> p in disk
    ensures FileAt(WriteAll(disk, Writes(disk, edit, root)), p) == Edited(disk, edit, root, p)
  {
    WriteAllLastWins(disk, Writes(disk, edit, root), p);
    var i := LastChange(disk, edit, root, p);
  }

  /** The text an application leaves where this is the origin. */
  ghost function EditedFrom(disk: Disk, edit: WorkspaceEdit, root: Path, origin: Origin): Option<string>
    requires AllRewrite(disk, edit, root)
  {
    match origin
    case Nowhere => None
    case Blank => Some("")
    case From(q) => Edited(disk, edit, root, q)
  }

  /** When an application succeeds, and what it leaves at every path whether or not it
      does: the edited text of the file its operations brought there, an empty file, or
      nothing; and the tree as it was when some file cannot be rewritten. */
  lemma AppliedExactly(disk: Disk, edit: WorkspaceEdit, root: Path, p: Path)
    ensures Applied(disk, edit, root).1.Ok? <==> Succeeds(disk, edit, root)
    ensures !AllRewrite(disk, edit, root) ==> Applied(disk, edit, root).0 == disk
    ensures AllRewrite(disk, edit, root) ==>
      FileAt(Applied(disk, edit, root).0, p) == EditedFrom(disk, edit, root, Source(disk, edit, root, p))
  {
    PlanWhenAllRewrite(disk, edit, root);
    if AllRewrite(disk, edit, root) {
      var written := WriteAll(disk, Writes(disk, edit, root));
      forall q ensures q in written <==> q in disk {
        WritesKeepFiles(disk, edit, root, q);
      }
      assert written.Keys == disk.Keys;
      OpsRunExactly(written, edit.fileOps, root, p);
      var origin := Source(disk, edit, root, p);
      if origin.From? {
        WritesKeepFiles(disk, edit, root, origin.path);
      }
    }
  }

  lemma NamedSnoc(ops: seq<FileOperation>, root: Path, p: Path)
    requires ops != []
    ensures NamedByOps(ops, root, p) <==>
      NamedByOps(ops[..|ops| - 1], root, p) || p in OpPaths(ops[|ops| - 1], root)
  {
    var n := |ops| - 1;
    if i :| 0 <= i < n && p in OpPaths(ops[..n][i], root) {
      assert p in OpPaths(ops[i], root);
    }
    if i :| 0 <= i < |ops| && p in OpPaths(ops[i], root) {
      assert i < n ==> p in OpPaths(ops[..n][i], root);
    }
  }

  /** A path that no operation creates or renames to keeps its file exactly when none
      names it at all. */
  lemma {:induction false} KeptExactly(files: set<Path>, ops: seq<FileOperation>, root: Path, p: Path)
    requires p in files
    requires forall i :: 0 <= i < |ops| && !ops[i].Delete? ==> Resolve(Reported(ops[i]), root) != p
    ensures OriginOf(files, ops, root, p) == if NamedByOps(ops, root, p) then Nowhere else From(p)
  {
    if ops != [] {
      KeptExactly(files, ops[..|ops| - 1], root, p);
      NamedSnoc(ops, root, p);
    }
  }
}
