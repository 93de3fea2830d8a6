/** The document session over one language server, as functions on a value: which
    documents are open, the overlay that shows a sibling working copy on the base
    index, and the notifications that keep the server in step. */
module Session {
  import opened Wrappers
  import opened Paths
  import opened Applier

  // ---------------------------------------------------------------- the server

  datatype Note =
    | DidOpen(path: Path, version: nat, text: string)
    | DidChange(path: Path, version: nat, text: string)
    | DidClose(path: Path)
    | WatchedFilesChanged(paths: seq<Path>)

  datatype Document = Document(version: nat, text: string)

  /** A language server's open documents, and whether every notification so far
      obeyed the text-document synchronization rules. */
  datatype Server = Server(docs: map<Path, Document>, ok: bool)

  const FRESH_SERVER := Server(map[], true)

  function Deliver(server: Server, n: Note): Server {
    match n
    case DidOpen(p, v, text) =>
      Server(server.docs[p := Document(v, text)], server.ok && p !in server.docs)
    case DidChange(p, v, text) =>
      if p in server.docs then
        Server(server.docs[p := Document(v, text)], server.ok && server.docs[p].version < v)
      else server.(ok := false)
    case DidClose(p) => Server(server.docs - {p}, server.ok && p in server.docs)
    case WatchedFilesChanged(_) => server
  }

  function Run(trace: seq<Note>): Server {
    if trace == [] then FRESH_SERVER
    else Deliver(Run(trace[..|trace| - 1]), trace[|trace| - 1])
  }

  function Changes(trace: seq<Note>): nat {
    if trace == [] then 0
    else Changes(trace[..|trace| - 1]) + if trace[|trace| - 1].DidChange? then 1 else 0
  }

  /** A notification opens a closed document, or changes or closes an open one. */
  predicate Fits(docs: set<Path>, n: Note) {
    match n
    case DidOpen(p, _, _) => p !in docs
    case DidChange(p, _, _) => p in docs
    case DidClose(p) => p in docs
    case WatchedFilesChanged(_) => true
  }

  /** Every notification fits the documents open before it, whatever their versions. */
  predicate Fitting(trace: seq<Note>) {
    trace == [] ||
    (Fitting(trace[..|trace| - 1]) && Fits(Run(trace[..|trace| - 1]).docs.Keys, trace[|trace| - 1]))
  }

  // ---------------------------------------------------------------- the session

  /** Version numbers are 32-bit and wrap. */
  const VERSIONS: nat := 0x1_0000_0000

  /** Documents presented by the overlay: `changed` were open already, `added` were
      opened for it. */
  datatype Overlay = Overlay(changed: set<Path>, added: set<Path>)

  const NO_OVERLAY := Overlay({}, {})

  datatype State = State(
    root: Path,
    langs: seq<(string, string)>,
    openDocs: set<Path>,
    indexed: bool,
    overlay: Overlay,
    dirty: bool,
    overlayRoot: Option<Path>,
    docVersion: nat,
    trace: seq<Note>,
    server: Server)

  function NewState(root: Path, langs: seq<(string, string)>): State {
    State(root, langs, {}, false, NO_OVERLAY, false, None, 1, [], FRESH_SERVER)
  }

  function Send(s: State, n: Note): State {
    s.(trace := s.trace + [n], server := Deliver(s.server, n))
  }

  function SendOpen(s: State, p: Path, text: string): State {
    Send(s, DidOpen(p, 1, text))
  }

  function SendChange(s: State, p: Path, text: string): State {
    var v := (s.docVersion + 1) % VERSIONS;
    Send(s.(docVersion := v), DidChange(p, v, text))
  }

  /** Whether a path is a source file this session indexes. */
  predicate Indexes(langs: seq<(string, string)>, p: Path) {
    Extension(p).Some? && exists i :: 0 <= i < |langs| && langs[i].0 == Extension(p).value
  }

  predicate CanOpen(s: State, disk: Disk, path: Path) {
    var abs := Resolve(path, s.root);
    abs in s.openDocs || abs in disk
  }

  function EnsureOpen(s: State, disk: Disk, path: Path): State {
    var abs := Resolve(path, s.root);
    if abs in s.openDocs || abs !in disk then s
    else
      var sent := SendOpen(s, abs, disk[abs]);
      sent.(openDocs := sent.openDocs + {abs})
  }

  /** Open documents in turn, stopping at the first that cannot be read. */
  function OpenAll(s: State, disk: Disk, paths: seq<Path>): (State, bool) {
    if paths == [] then (s, true)
    else
      var (before, ok) := OpenAll(s, disk, paths[..|paths| - 1]);
      var p := paths[|paths| - 1];
      if ok then (EnsureOpen(before, disk, p), CanOpen(before, disk, p)) else (before, false)
  }

  predicate Shown(langs: seq<(string, string)>, disk: Disk, workspace: Path, rel: Path) {
    Indexes(langs, rel) && Join(workspace, rel) in disk
  }

  /** Present one changed file of the working copy under the base root's path. */
  function OverlayOne(s: State, disk: Disk, workspace: Path, rel: Path): State {
    if !Shown(s.langs, disk, workspace, rel) then s
    else
      var content, base := disk[Join(workspace, rel)], Join(s.root, rel);
      var sent :=
        if base in s.openDocs then
          var c := SendChange(s, base, content);
          c.(overlay := c.overlay.(changed := c.overlay.changed + {base}))
        else
          var o := SendOpen(s, base, content);
          o.(openDocs := o.openDocs + {base}, overlay := o.overlay.(added := o.overlay.added + {base}));
      sent.(dirty := true, overlayRoot := Some(workspace))
  }

  function OverlayEach(s: State, disk: Disk, workspace: Path, delta: seq<Path>): State {
    if delta == [] then s
    else OverlayOne(OverlayEach(s, disk, workspace, delta[..|delta| - 1]), disk, workspace, delta[|delta| - 1])
  }

  /** The overlay of a whole delta; the base checkout itself needs none. */
  function OverlayWorkspace(s: State, disk: Disk, workspace: Path, delta: seq<Path>): State {
    if workspace == s.root then s else OverlayEach(s, disk, workspace, delta)
  }

  function ChangeBack(s: State, disk: Disk, order: seq<Path>): State {
    if order == [] then s
    else
      var before, p := ChangeBack(s, disk, order[..|order| - 1]), order[|order| - 1];
      if p in disk then SendChange(before, p, disk[p]) else before
  }

  function CloseEach(s: State, order: seq<Path>): State {
    if order == [] then s
    else
      var before, p := CloseEach(s, order[..|order| - 1]), order[|order| - 1];
      var sent := Send(before, DidClose(p));
      sent.(openDocs := sent.openDocs - {p})
  }

  /** `order` lists each member of `paths` once: the order a hash set is walked in. */
  predicate Enumerates(order: seq<Path>, paths: set<Path>) {
    && (forall i :: 0 <= i < |order| ==> order[i] in paths)
    && (forall p :: p in paths ==> p in order)
    && (forall i, j :: 0 <= i < j < |order| ==> order[i] != order[j])
  }

  /** Undo the overlay, walking its two sets in the given orders. */
  function Restore(s: State, disk: Disk, changedOrder: seq<Path>, addedOrder: seq<Path>): State {
    var taken := s.(overlayRoot := None, overlay := NO_OVERLAY);
    CloseEach(ChangeBack(taken, disk, changedOrder), addedOrder).(dirty := false)
  }

  function BeginRequest(s: State, disk: Disk, changedOrder: seq<Path>, addedOrder: seq<Path>): State {
    if s.dirty then Restore(s, disk, changedOrder, addedOrder) else s
  }

  /** Take the changed files out of the open set, listing those that were in it. */
  function TakeChanged(root: Path, openDocs: set<Path>, changed: seq<Path>): (set<Path>, seq<Path>) {
    if changed == [] then (openDocs, [])
    else
      var (left, toClose) := TakeChanged(root, openDocs, changed[..|changed| - 1]);
      var abs := Resolve(changed[|changed| - 1], root);
      if abs in left then (left - {abs}, toClose + [abs]) else (left, toClose)
  }

  function SendCloses(s: State, toClose: seq<Path>): State {
    if toClose == [] then s
    else Send(SendCloses(s, toClose[..|toClose| - 1]), DidClose(toClose[|toClose| - 1]))
  }

  function ResolveEach(root: Path, paths: seq<Path>): seq<Path> {
    if paths == [] then []
    else ResolveEach(root, paths[..|paths| - 1]) + [Resolve(paths[|paths| - 1], root)]
  }

  /** After an edit landed: close the changed documents and announce the change. */
  function SyncChanged(s: State, changed: seq<Path>): State {
    var (left, toClose) := TakeChanged(s.root, s.openDocs, changed);
    Send(SendCloses(s.(openDocs := left), toClose), WatchedFilesChanged(ResolveEach(s.root, changed)))
  }

  /** The checkout the session is answering from. */
  function ContentRoot(s: State): Path {
    match s.overlayRoot case Some(root) => root case None => s.root
  }

  // ---------------------------------------------------------------- views

  /** The text a server has for a path: an open document's, else the file's. */
  function ViewAt(s: State, disk: Disk, p: Path): Option<string> {
    if p in s.server.docs then Some(s.server.docs[p].text)
    else FileAt(disk, p)
  }

  /** The simple view: the base checkout with the delta's readable, indexed files
      taken from the working copy. */
  function OverlayView(langs: seq<(string, string)>, root: Path, disk: Disk, workspace: Path, delta: seq<Path>, p: Path)
    : Option<string>
    requires StartsWith(p, root)
  {
    var rel := p[|root|..];
    if rel in delta && Shown(langs, disk, workspace, rel) then Some(disk[Join(workspace, rel)])
    else FileAt(disk, p)
  }

  predicate AllRelative(delta: seq<Path>) {
    forall i :: 0 <= i < |delta| ==> !IsAbsolute(delta[i])
  }

  // ---------------------------------------------------------------- invariants

  /** The session and the server agree on what is open, and every open document
      under the root that is not recorded as overlaid holds its file's text. Here and
      below `stale` holds the documents excepted, because their files changed without
      the session being told. */
  ghost predicate Tracked(s: State, disk: Disk, stale: set<Path> := {}) {
    && IsRoot(s.root)
    && s.openDocs == s.server.docs.Keys
    && s.overlay.changed <= s.openDocs && s.overlay.added <= s.openDocs
    && (forall p :: p in s.overlay.changed + s.overlay.added ==> StartsWith(p, s.root))
    && (forall p :: p in s.openDocs && StartsWith(p, s.root) && !Recorded(s, p) && p !in stale ==> HoldsFile(s, disk, p))
  }

  /** `p` is part of the overlay's record, perhaps twice because the delta repeats it. */
  predicate Recorded(s: State, p: Path) {
    p in s.overlay.changed || p in s.overlay.added
  }

  /** The open document `p` holds the text of its file. */
  predicate HoldsFile(s: State, disk: Disk, p: Path) {
    p in disk && p in s.server.docs && s.server.docs[p].text == disk[p]
  }

  /** Every recorded change can be undone from the base checkout. */
  ghost predicate Restorable(s: State, disk: Disk, stale: set<Path> := {}) {
    forall p :: p in s.overlay.changed && p !in s.overlay.added && p !in stale ==> p in disk
  }

  /** A record is always flagged, so that the next request clears it. */
  predicate Flagged(s: State) {
    && (s.overlay != NO_OVERLAY ==> s.dirty)
    && (s.overlay == NO_OVERLAY ==> s.overlayRoot == None)
  }

  /** No overlay: open documents under the root hold their base text. */
  ghost predicate Clean(s: State, disk: Disk, stale: set<Path> := {}) {
    Tracked(s, disk, stale) && s.overlay == NO_OVERLAY && !s.dirty && s.overlayRoot == None
  }

  /** What holds whenever the request lock is free, leaked overlays included. */
  ghost predicate Idle(s: State, disk: Disk, stale: set<Path> := {}) {
    Tracked(s, disk, stale) && Restorable(s, disk, stale) && Flagged(s)
  }

  function ShownPaths(s: State, disk: Disk, workspace: Path, done: seq<Path>): set<Path> {
    set rel | rel in done && Shown(s.langs, disk, workspace, rel) :: s.root + rel
  }

  /** The overlay presents exactly the shown files of `done`. */
  ghost predicate Overlaid(s: State, disk: Disk, workspace: Path, done: seq<Path>, stale: set<Path> := {}) {
    && Idle(s, disk, stale)
    && s.overlay.changed + s.overlay.added == ShownPaths(s, disk, workspace, done)
    && (forall rel :: rel in done && Shown(s.langs, disk, workspace, rel) ==>
      s.root + rel in s.server.docs && s.server.docs[s.root + rel].text == disk[Join(workspace, rel)])
    && (s.overlay != NO_OVERLAY ==> s.overlayRoot == Some(workspace))
  }

  /** Opens, changes and closes always fit; versions increase exactly until the shared
      32-bit counter has wrapped. */
  ghost predicate Versioned(s: State) {
    && s.server == Run(s.trace) && Fitting(s.trace)
    && (Changes(s.trace) + 1 < VERSIONS ==>
      && s.server.ok
      && s.docVersion == Changes(s.trace) + 1
      && forall p :: p in s.server.docs ==> s.server.docs[p].version <= s.docVersion)
    && (Changes(s.trace) + 1 >= VERSIONS ==> !s.server.ok)
  }

  /** The sources are the files named something, a dot, and one of the session's extensions. */
  lemma IndexesExactly(langs: seq<(string, string)>, p: Path)
    ensures Indexes(langs, p) <==>
      p != [] && p[|p| - 1] != ROOT && exists i :: 0 <= i < |langs| && Ends(p[|p| - 1], langs[i].0)
  {
    if Indexes(langs, p) {
      ExtensionExactly(p, Extension(p).value);
    }
    if p != [] && p[|p| - 1] != ROOT {
      forall i | 0 <= i < |langs| && Ends(p[|p| - 1], langs[i].0) ensures Extension(p) == Some(langs[i].0) {
        ExtensionExactly(p, langs[i].0);
      }
    }
  }

  // ---------------------------------------------------------------- the steps keep them

  lemma SendTrace(s: State, n: Note)
    ensures s.server == Run(s.trace) ==> Send(s, n).server == Run(Send(s, n).trace)
    ensures Changes(Send(s, n).trace) == Changes(s.trace) + if n.DidChange? then 1 else 0
    ensures Fitting(Send(s, n).trace) <==> Fitting(s.trace) && Fits(Run(s.trace).docs.Keys, n)
  {
    assert (s.trace + [n])[..|s.trace|] == s.trace;
  }

  lemma OpenVersioned(s: State, p: Path, text: string)
    requires Versioned(s) && p !in s.server.docs
    ensures Versioned(SendOpen(s, p, text))
  {
    SendTrace(s, DidOpen(p, 1, text));
  }

  lemma ChangeBeforeWrap(s: State, p: Path, text: string)
    requires Versioned(s) && p in s.server.docs && Changes(s.trace) + 2 < VERSIONS
    ensures var t := SendChange(s, p, text);
      && t.server.ok && t.docVersion == Changes(s.trace) + 2
      && forall q :: q in t.server.docs ==> t.server.docs[q].version <= t.docVersion
  {
    assert (s.docVersion + 1) % VERSIONS == s.docVersion + 1;
  }

  lemma ChangeFromWrap(s: State, p: Path, text: string)
    requires Versioned(s) && p in s.server.docs && Changes(s.trace) + 2 >= VERSIONS
    ensures !SendChange(s, p, text).server.ok
  {
    if s.server.ok {
      assert (s.docVersion + 1) % VERSIONS == 0;
    }
  }

  lemma ChangeVersioned(s: State, p: Path, text: string)
    requires Versioned(s) && p in s.server.docs
    ensures Versioned(SendChange(s, p, text))
  {
    var v := (s.docVersion + 1) % VERSIONS;
    SendTrace(s.(docVersion := v), DidChange(p, v, text));
    if Changes(s.trace) + 2 < VERSIONS {
      ChangeBeforeWrap(s, p, text);
    } else {
      ChangeFromWrap(s, p, text);
    }
  }

  lemma CloseVersioned(s: State, p: Path)
    requires Versioned(s) && p in s.server.docs
    ensures Versioned(Send(s, DidClose(p)))
  {
    SendTrace(s, DidClose(p));
  }

  /** A new session is clean, whatever the disk holds; it has told the server nothing, and
      its sources are still to be opened. */
  lemma NewSessionIsClean(root: Path, langs: seq<(string, string)>, disk: Disk)
    requires IsRoot(root)
    ensures Clean(NewState(root, langs), disk) && Versioned(NewState(root, langs))
    ensures NewState(root, langs).trace == [] && !NewState(root, langs).indexed
  {
  }

  /** Opening a document that can be read and is not open notifies the server once, with
      its file's text; opening any other changes nothing. */
  lemma EnsureOpenEffect(s: State, disk: Disk, path: Path)
    requires s.openDocs == s.server.docs.Keys
    ensures var t, abs := EnsureOpen(s, disk, path), Resolve(path, s.root);
      if abs in disk && abs !in s.openDocs then
        && t == s.(openDocs := s.openDocs + {abs}, trace := t.trace, server := t.server)
        && t.trace == s.trace + [DidOpen(abs, 1, disk[abs])]
        && t.server.docs == s.server.docs[abs := Document(1, disk[abs])]
      else t == s
  {
  }

  /** Opening several succeeds exactly when each is open or can be read; then all are open,
      and nothing else that was not. */
  lemma {:induction false} OpenAllOpens(s: State, disk: Disk, paths: seq<Path>)
    ensures var (t, ok) := OpenAll(s, disk, paths);
      && t.root == s.root && s.openDocs <= t.openDocs
      && (ok <==> forall i :: 0 <= i < |paths| ==> CanOpen(s, disk, paths[i]))
      && (ok ==> forall i :: 0 <= i < |paths| ==> Resolve(paths[i], s.root) in t.openDocs)
      && (forall p :: p in t.openDocs ==>
        p in s.openDocs || (p in disk && exists i :: 0 <= i < |paths| && Resolve(paths[i], s.root) == p))
  {
    if paths != [] {
      var n := |paths| - 1;
      OpenAllOpens(s, disk, paths[..n]);
      var before := OpenAll(s, disk, paths[..n]).0;
      assert CanOpen(before, disk, paths[n]) <==> CanOpen(s, disk, paths[n]) by {
        OpenedWasReadable(s, before, disk, Resolve(paths[n], s.root));
      }
      forall p | p in OpenAll(s, disk, paths).0.openDocs && p !in s.openDocs
        ensures p in disk && exists i :: 0 <= i < |paths| && Resolve(paths[i], s.root) == p
      {
        if p in before.openDocs {
          var i :| 0 <= i < n && Resolve(paths[..n][i], s.root) == p;
          assert Resolve(paths[i], s.root) == p;
        } else {
          assert Resolve(paths[n], s.root) == p;
        }
      }
    }
  }

  lemma OpenedWasReadable(s: State, t: State, disk: Disk, p: Path)
    requires s.openDocs <= t.openDocs && forall q :: q in t.openDocs ==> q in s.openDocs || q in disk
    ensures p in t.openDocs || p in disk <==> p in s.openDocs || p in disk
  {
  }

  lemma EnsureOpenKeepsIdle(s: State, disk: Disk, path: Path, stale: set<Path> := {})
    requires Idle(s, disk, stale)
    ensures Idle(EnsureOpen(s, disk, path), disk, stale)
    ensures Clean(s, disk, stale) ==> Clean(EnsureOpen(s, disk, path), disk, stale)
  {
    EnsureOpenEffect(s, disk, path);
  }

  lemma EnsureOpenVersioned(s: State, disk: Disk, path: Path)
    requires Versioned(s) && s.openDocs == s.server.docs.Keys
    ensures Versioned(EnsureOpen(s, disk, path))
  {
    var abs := Resolve(path, s.root);
    if abs !in s.openDocs && abs in disk {
      OpenVersioned(s, abs, disk[abs]);
    }
  }

  lemma EnsureOpenKeepsOverlaid(s: State, disk: Disk, path: Path, workspace: Path, done: seq<Path>,
                                stale: set<Path> := {})
    requires Overlaid(s, disk, workspace, done, stale)
    ensures Overlaid(EnsureOpen(s, disk, path), disk, workspace, done, stale)
  {
    EnsureOpenKeepsIdle(s, disk, path, stale);
    EnsureOpenEffect(s, disk, path);
    var t := EnsureOpen(s, disk, path);
    assert ShownPaths(t, disk, workspace, done) == ShownPaths(s, disk, workspace, done);
    forall rel | rel in done && Shown(t.langs, disk, workspace, rel)
      ensures t.root + rel in t.server.docs && t.server.docs[t.root + rel].text == disk[Join(workspace, rel)]
    {
      assert s.root + rel in s.server.docs;
    }
  }

  /** What presenting one file does to the parts of the session other than the trace. */
  lemma OverlayOneEffect(s: State, disk: Disk, workspace: Path, rel: Path)
    requires !IsAbsolute(rel) && Shown(s.langs, disk, workspace, rel)
    ensures var t, base := OverlayOne(s, disk, workspace, rel), s.root + rel;
      && t.root == s.root && t.langs == s.langs && t.dirty && t.overlayRoot == Some(workspace)
      && t.openDocs == s.openDocs + {base}
      && t.trace == s.trace + [if base in s.openDocs then DidChange(base, t.docVersion, disk[Join(workspace, rel)])
                               else DidOpen(base, 1, disk[Join(workspace, rel)])]
      && t.overlay == (if base in s.openDocs then s.overlay.(changed := s.overlay.changed + {base})
                       else s.overlay.(added := s.overlay.added + {base}))
      && (s.openDocs == s.server.docs.Keys ==>
        && t.server.docs.Keys == s.server.docs.Keys + {base}
        && t.server.docs[base].text == disk[Join(workspace, rel)]
        && forall p :: p in s.server.docs && p != base ==> t.server.docs[p] == s.server.docs[p])
  {
  }

  lemma OverlayOneVersioned(s: State, disk: Disk, workspace: Path, rel: Path)
    requires !IsAbsolute(rel) && Versioned(s) && s.openDocs == s.server.docs.Keys
    ensures Versioned(OverlayOne(s, disk, workspace, rel))
  {
    if Shown(s.langs, disk, workspace, rel) {
      var content, base := disk[Join(workspace, rel)], s.root + rel;
      if base in s.openDocs {
        ChangeVersioned(s, base, content);
      } else {
        OpenVersioned(s, base, content);
      }
    }
  }

  lemma BaseInjective(root: Path, a: Path, b: Path)
    ensures root + a == root + b ==> a == b
    ensures StartsWith(root + a, root)
  {
    assert (root + a)[|root|..] == a && (root + b)[|root|..] == b;
  }

  lemma OverlayOneIdle(s: State, disk: Disk, workspace: Path, rel: Path, stale: set<Path> := {})
    requires !IsAbsolute(rel) && Idle(s, disk, stale)
    ensures Idle(OverlayOne(s, disk, workspace, rel), disk, stale)
  {
    if Shown(s.langs, disk, workspace, rel) {
      OverlayOneEffect(s, disk, workspace, rel);
      BaseInjective(s.root, rel, rel);
    }
  }

  lemma OverlayOneShows(s: State, disk: Disk, workspace: Path, done: seq<Path>, rel: Path, stale: set<Path> := {})
    requires !IsAbsolute(rel) && Overlaid(s, disk, workspace, done, stale)
    requires Shown(s.langs, disk, workspace, rel)
    ensures var t := OverlayOne(s, disk, workspace, rel);
      && t.overlay.changed + t.overlay.added == ShownPaths(t, disk, workspace, done + [rel])
      && forall r :: r in done + [rel] && Shown(t.langs, disk, workspace, r) ==>
        t.root + r in t.server.docs && t.server.docs[t.root + r].text == disk[Join(workspace, r)]
  {
    var t, base := OverlayOne(s, disk, workspace, rel), s.root + rel;
    OverlayOneEffect(s, disk, workspace, rel);
    assert forall r :: r in done + [rel] <==> r in done || r == rel;
    assert ShownPaths(t, disk, workspace, done + [rel]) == ShownPaths(s, disk, workspace, done) + {base};
    forall r | r in done + [rel] && Shown(t.langs, disk, workspace, r)
      ensures t.root + r in t.server.docs && t.server.docs[t.root + r].text == disk[Join(workspace, r)]
    {
      BaseInjective(s.root, r, rel);
    }
  }

  lemma OverlayOneKeeps(s: State, disk: Disk, workspace: Path, done: seq<Path>, rel: Path, stale: set<Path> := {})
    requires Overlaid(s, disk, workspace, done, stale) && !IsAbsolute(rel)
    ensures Overlaid(OverlayOne(s, disk, workspace, rel), disk, workspace, done + [rel], stale)
  {
    OverlayOneIdle(s, disk, workspace, rel, stale);
    if Shown(s.langs, disk, workspace, rel) {
      OverlayOneShows(s, disk, workspace, done, rel, stale);
      OverlayOneEffect(s, disk, workspace, rel);
    } else {
      assert forall r :: r in done + [rel] <==> r in done || r == rel;
      assert ShownPaths(s, disk, workspace, done + [rel]) == ShownPaths(s, disk, workspace, done);
    }
  }

  /** Presenting a whole delta on a clean session overlays exactly it. */
  lemma {:induction false} OverlayEachKeeps(s: State, disk: Disk, workspace: Path, delta: seq<Path>)
    requires Clean(s, disk) && AllRelative(delta)
    ensures Overlaid(OverlayEach(s, disk, workspace, delta), disk, workspace, delta)
    ensures Versioned(s) ==> Versioned(OverlayEach(s, disk, workspace, delta))
  {
    if delta == [] {
      assert ShownPaths(s, disk, workspace, delta) == {};
    } else {
      var before := delta[..|delta| - 1];
      OverlayEachKeeps(s, disk, workspace, before);
      var t := OverlayEach(s, disk, workspace, before);
      OverlayOneKeeps(t, disk, workspace, before, delta[|delta| - 1]);
      assert before + [delta[|delta| - 1]] == delta;
      if Versioned(s) {
        OverlayOneVersioned(t, disk, workspace, delta[|delta| - 1]);
      }
    }
  }

  /** While a delta is overlaid, the server's view of every path under the root is
      the base checkout with that delta's files, and nothing else. */
  lemma OverlaidViewIsSimpleView(s: State, disk: Disk, workspace: Path, done: seq<Path>, p: Path,
                                 stale: set<Path> := {})
    requires Overlaid(s, disk, workspace, done, stale) && StartsWith(p, s.root)
    requires p !in stale || p in ShownPaths(s, disk, workspace, done)
    ensures ViewAt(s, disk, p) == OverlayView(s.langs, s.root, disk, workspace, done, p)
  {
    var rel := p[|s.root|..];
    assert s.root + rel == p;
    if p in ShownPaths(s, disk, workspace, done) {
      var r :| r in done && Shown(s.langs, disk, workspace, r) && s.root + r == p;
      BaseInjective(s.root, r, rel);
    }
  }

  // ---------------------------------------------------------------- restoring

  /** What changing one open document back does. */
  lemma ChangeOneEffect(s: State, p: Path, text: string)
    requires p in s.server.docs
    ensures var t := SendChange(s, p, text);
      && t == s.(docVersion := t.docVersion, trace := t.trace, server := t.server)
      && t.server.docs.Keys == s.server.docs.Keys && t.server.docs[p].text == text
      && (forall q :: q in s.server.docs && q != p ==> t.server.docs[q] == s.server.docs[q])
      && (Versioned(s) ==> Versioned(t))
  {
    if Versioned(s) {
      ChangeVersioned(s, p, text);
    }
  }

  lemma {:induction false} ChangeBackEffect(s: State, disk: Disk, order: seq<Path>)
    requires forall i :: 0 <= i < |order| ==> order[i] in s.server.docs
    ensures var t := ChangeBack(s, disk, order);
      && t == s.(docVersion := t.docVersion, trace := t.trace, server := t.server)
      && t.server.docs.Keys == s.server.docs.Keys
      && (forall p :: p in s.server.docs && (p !in order || p !in disk) ==> t.server.docs[p].text == s.server.docs[p].text)
      && (forall p :: p in order && p in disk ==> t.server.docs[p].text == disk[p])
      && (Versioned(s) ==> Versioned(t))
  {
    if order != [] {
      var n := |order| - 1;
      ChangeBackEffect(s, disk, order[..n]);
      assert order == order[..n] + [order[n]];
      if order[n] in disk {
        ChangeOneEffect(ChangeBack(s, disk, order[..n]), order[n], disk[order[n]]);
      }
    }
  }

  lemma {:induction false} CloseEachEffect(s: State, order: seq<Path>)
    requires forall i :: 0 <= i < |order| ==> order[i] in s.server.docs
    requires forall i, j :: 0 <= i < j < |order| ==> order[i] != order[j]
    ensures var t := CloseEach(s, order);
      && t == s.(openDocs := t.openDocs, trace := t.trace, server := t.server)
      && (forall p :: p in t.openDocs <==> p in s.openDocs && p !in order)
      && (forall p :: p in t.server.docs <==> p in s.server.docs && p !in order)
      && (forall p :: p in t.server.docs ==> t.server.docs[p] == s.server.docs[p])
      && (Versioned(s) ==> Versioned(t))
  {
    if order != [] {
      var n := |order| - 1;
      CloseEachEffect(s, order[..n]);
      assert order == order[..n] + [order[n]];
      var before := CloseEach(s, order[..n]);
      assert order[n] in before.server.docs;
      if Versioned(before) {
        CloseVersioned(before, order[n]);
      }
    }
  }

  /** Restoring closes what the overlay opened, changes back what can be read from the
      base checkout, and leaves every other open document as it was. */
  lemma RestoreEffect(s: State, disk: Disk, changedOrder: seq<Path>, addedOrder: seq<Path>)
    requires s.openDocs == s.server.docs.Keys
    requires s.overlay.changed <= s.openDocs && s.overlay.added <= s.openDocs
    requires Enumerates(changedOrder, s.overlay.changed) && Enumerates(addedOrder, s.overlay.added)
    ensures var t := Restore(s, disk, changedOrder, addedOrder);
      && t.root == s.root && t.langs == s.langs
      && t.overlay == NO_OVERLAY && !t.dirty && t.overlayRoot == None
      && t.openDocs == t.server.docs.Keys == s.openDocs - s.overlay.added
      && (forall p :: p in t.openDocs ==>
        t.server.docs[p].text == if p in s.overlay.changed && p in disk then disk[p] else s.server.docs[p].text)
    ensures Versioned(s) ==> Versioned(Restore(s, disk, changedOrder, addedOrder))
  {
    var taken := s.(overlayRoot := None, overlay := NO_OVERLAY);
    ChangeBackEffect(taken, disk, changedOrder);
    CloseEachEffect(ChangeBack(taken, disk, changedOrder), addedOrder);
  }

  lemma {:induction false} CloseEachTrace(s: State, order: seq<Path>)
    ensures CloseEach(s, order).trace == s.trace + Closing(order)
  {
    if order != [] {
      CloseEachTrace(s, order[..|order| - 1]);
    }
  }

  /** Note `n` sends `p` its file's text. */
  predicate SendsFile(disk: Disk, n: Note, p: Path) {
    p in disk && n.DidChange? && n.path == p && n.text == disk[p]
  }

  lemma {:induction false} ChangeBackTrace(s: State, disk: Disk, order: seq<Path>) returns (notes: seq<Note>, sent: seq<Path>)
    requires forall i, j :: 0 <= i < j < |order| ==> order[i] != order[j]
    ensures ChangeBack(s, disk, order).trace == s.trace + notes && |notes| == |sent|
    ensures forall i :: 0 <= i < |notes| ==> SendsFile(disk, notes[i], sent[i])
    ensures Enumerates(sent, set p | p in order && p in disk)
  {
    if order == [] {
      notes, sent := [], [];
    } else {
      var n := |order| - 1;
      notes, sent := ChangeBackTrace(s, disk, order[..n]);
      var before, p := ChangeBack(s, disk, order[..n]), order[n];
      assert forall q :: q in order <==> q in order[..n] || q == p;
      if p in disk {
        var note := DidChange(p, (before.docVersion + 1) % VERSIONS, disk[p]);
        assert SendChange(before, p, disk[p]).trace == before.trace + [note];
        notes, sent := notes + [note], sent + [p];
      }
    }
  }

  /** What a restore tells the server: each document it changed and can read again is sent
      its file's text, once, and then each it opened is closed, once. */
  lemma RestoreTells(s: State, disk: Disk, changedOrder: seq<Path>, addedOrder: seq<Path>)
    returns (notes: seq<Note>, sent: seq<Path>)
    requires Enumerates(changedOrder, s.overlay.changed) && Enumerates(addedOrder, s.overlay.added)
    ensures Restore(s, disk, changedOrder, addedOrder).trace == s.trace + notes + Closing(addedOrder)
    ensures |notes| == |sent| && forall i :: 0 <= i < |notes| ==> SendsFile(disk, notes[i], sent[i])
    ensures Enumerates(sent, set p | p in s.overlay.changed && p in disk)
  {
    var taken := s.(overlayRoot := None, overlay := NO_OVERLAY);
    notes, sent := ChangeBackTrace(taken, disk, changedOrder);
    CloseEachTrace(ChangeBack(taken, disk, changedOrder), addedOrder);
  }

  /** The stale documents that restoring leaves: still open, and not changed back. */
  function StillStale(s: State, disk: Disk, stale: set<Path>): set<Path> {
    set p | p in stale && p !in s.overlay.added && !(p in s.overlay.changed && p in disk)
  }

  /** Restoring an overlay, from any record and in any order, brings the base view
      back exactly when every document it changed and does not close can still be
      read from the base checkout; one that cannot keeps the overlay's text. */
  lemma RestoreCleansExactly(s: State, disk: Disk, changedOrder: seq<Path>, addedOrder: seq<Path>,
                             stale: set<Path> := {})
    requires Tracked(s, disk, stale)
    requires Enumerates(changedOrder, s.overlay.changed) && Enumerates(addedOrder, s.overlay.added)
    ensures Clean(Restore(s, disk, changedOrder, addedOrder), disk, stale) <==> Restorable(s, disk, stale)
    ensures forall p :: p in s.overlay.changed && p !in s.overlay.added && p !in disk ==>
      ViewAt(Restore(s, disk, changedOrder, addedOrder), disk, p) == ViewAt(s, disk, p)
    ensures Versioned(s) ==> Versioned(Restore(s, disk, changedOrder, addedOrder))
  {
    RestoreEffect(s, disk, changedOrder, addedOrder);
    var t := Restore(s, disk, changedOrder, addedOrder);
    forall p | p in t.openDocs && StartsWith(p, s.root) && p !in stale
      ensures HoldsFile(t, disk, p) <==> !(p in s.overlay.changed && p !in disk)
    {
      assert Recorded(s, p) || HoldsFile(s, disk, p);
    }
    if !Restorable(s, disk, stale) {
      var p :| p in s.overlay.changed && p !in s.overlay.added && p !in stale && p !in disk;
      assert p in t.openDocs && StartsWith(p, s.root);
    }
  }

  /** Where restoring leaves stale documents, they are those that stay open unchanged. */
  lemma RestoreLeavesStale(s: State, disk: Disk, changedOrder: seq<Path>, addedOrder: seq<Path>, stale: set<Path>)
    requires Tracked(s, disk, stale) && Restorable(s, disk, stale)
    requires Enumerates(changedOrder, s.overlay.changed) && Enumerates(addedOrder, s.overlay.added)
    ensures Clean(Restore(s, disk, changedOrder, addedOrder), disk, StillStale(s, disk, stale))
  {
    RestoreEffect(s, disk, changedOrder, addedOrder);
  }

  // ---------------------------------------------------------------- syncing

  lemma {:induction false} TakeChangedEffect(root: Path, openDocs: set<Path>, changed: seq<Path>)
    ensures var (left, toClose) := TakeChanged(root, openDocs, changed);
      && (forall p :: p in left <==> p in openDocs && p !in ResolveEach(root, changed))
      && (forall p :: p in toClose <==> p in openDocs && p in ResolveEach(root, changed))
      && (forall i, j :: 0 <= i < j < |toClose| ==> toClose[i] != toClose[j])
  {
    if changed != [] {
      TakeChangedEffect(root, openDocs, changed[..|changed| - 1]);
    }
  }

  lemma {:induction false} SendClosesEffect(s: State, toClose: seq<Path>)
    requires forall i :: 0 <= i < |toClose| ==> toClose[i] in s.server.docs
    requires forall i, j :: 0 <= i < j < |toClose| ==> toClose[i] != toClose[j]
    ensures var t := SendCloses(s, toClose);
      && t == s.(trace := t.trace, server := t.server)
      && (forall p :: p in t.server.docs <==> p in s.server.docs && p !in toClose)
      && (forall p :: p in t.server.docs ==> t.server.docs[p] == s.server.docs[p])
      && (Versioned(s) ==> Versioned(t))
  {
    if toClose != [] {
      var n := |toClose| - 1;
      SendClosesEffect(s, toClose[..n]);
      assert toClose == toClose[..n] + [toClose[n]];
      var before := SendCloses(s, toClose[..n]);
      if Versioned(before) {
        CloseVersioned(before, toClose[n]);
      }
    }
  }

  /** A close for each path, in order. */
  function Closing(paths: seq<Path>): seq<Note> {
    if paths == [] then [] else Closing(paths[..|paths| - 1]) + [DidClose(paths[|paths| - 1])]
  }

  lemma {:induction false} SendClosesTrace(s: State, toClose: seq<Path>)
    ensures SendCloses(s, toClose).trace == s.trace + Closing(toClose)
  {
    if toClose != [] {
      SendClosesTrace(s, toClose[..|toClose| - 1]);
    }
  }

  lemma {:induction false} ResolveEachAt(root: Path, paths: seq<Path>)
    ensures |ResolveEach(root, paths)| == |paths|
    ensures forall i :: 0 <= i < |paths| ==> ResolveEach(root, paths)[i] == Resolve(paths[i], root)
  {
    if paths != [] {
      ResolveEachAt(root, paths[..|paths| - 1]);
    }
  }

  /** What a sync tells the server: the open documents among the changed files are closed,
      once each, and then all of the changed files are announced, in their order. */
  lemma SyncAnnounces(s: State, changed: seq<Path>) returns (closed: seq<Path>, announced: seq<Path>)
    ensures SyncChanged(s, changed).trace == s.trace + Closing(closed) + [WatchedFilesChanged(announced)]
    ensures |announced| == |changed| && forall i :: 0 <= i < |changed| ==> announced[i] == Resolve(changed[i], s.root)
    ensures Enumerates(closed, set p | p in s.openDocs && p in announced)
  {
    var (left, toClose) := TakeChanged(s.root, s.openDocs, changed);
    closed, announced := toClose, ResolveEach(s.root, changed);
    TakeChangedEffect(s.root, s.openDocs, changed);
    SendClosesTrace(s.(openDocs := left), toClose);
    ResolveEachAt(s.root, changed);
  }

  /** Syncing closes exactly the open documents among the changed files. */
  lemma SyncChangedEffect(s: State, changed: seq<Path>)
    requires s.openDocs == s.server.docs.Keys
    ensures var t := SyncChanged(s, changed);
      && t == s.(openDocs := t.openDocs, trace := t.trace, server := t.server)
      && t.openDocs == t.server.docs.Keys
      && (forall p :: p in t.openDocs <==> p in s.openDocs && p !in ResolveEach(s.root, changed))
      && (forall p :: p in t.openDocs ==> t.server.docs[p] == s.server.docs[p])
      && (Versioned(s) ==> Versioned(t))
  {
    var (left, toClose) := TakeChanged(s.root, s.openDocs, changed);
    TakeChangedEffect(s.root, s.openDocs, changed);
    SendClosesEffect(s.(openDocs := left), toClose);
    var closed := SendCloses(s.(openDocs := left), toClose);
    SendTrace(closed, WatchedFilesChanged(ResolveEach(s.root, changed)));
  }
}
