/** Any number of requests on one session, interleaved: they wait for the session's
    lock, overlay their working copy file by file, run, restore, and apply any edit
    or none; each can be dropped while it waits, between two files of its overlay,
    while it runs, or once it has restored. Meanwhile anything else may write to the
    disk. The system keeps the set of stale documents: those the server holds open
    although their files changed without the session being told. */
module Requests {
  import opened Wrappers
  import opened Paths
  import opened Applier
  import opened Session
  import opened Sync
  import Protocol

  datatype Phase = Waiting | Overlaying(shown: nat) | Running | Restored | Ended

  datatype Request = Request(workspace: Path, delta: seq<Path>, phase: Phase)

  datatype System = System(session: State, disk: Disk, stale: set<Path>, holder: Option<nat>, requests: map<nat, Request>)

  datatype Step =
    | Arrive(id: nat, workspace: Path, delta: seq<Path>)
    | Acquire(id: nat, changedOrder: seq<Path>, addedOrder: seq<Path>)
    | ShowNext(id: nat)
    | Start(id: nat)
    | OpenDocument(id: nat, path: Path)
    | RestoreView(id: nat, changedOrder: seq<Path>, addedOrder: seq<Path>)
    | FinishEdit(id: nat, edit: WorkspaceEdit)
    | Release(id: nat)
    | Drop(id: nat)
    | OutsideWrite(path: Path, text: Option<string>)

  predicate Holds(sys: System, id: nat) {
    sys.holder == Some(id) && id in sys.requests
  }

  function Enter(sys: System, id: nat, phase: Phase): System
    requires id in sys.requests
  {
    sys.(requests := sys.requests[id := sys.requests[id].(phase := phase)])
  }

  /** The documents that a change of the disk makes stale: open, not part of the
      overlay's record or not to be changed back, and no longer what their file is. */
  ghost function Disturbed(s: State, before: Disk, after: Disk): set<Path> {
    set p | p in s.openDocs && StartsWith(p, s.root) && !SameAt(after, before, p)
      && p !in s.overlay.added && !(p in s.overlay.changed && p in after)
  }

  /** What is stale once a request has begun. */
  function StaleAfterBegin(s: State, disk: Disk, stale: set<Path>): set<Path> {
    if s.dirty then StillStale(s, disk, stale) else stale
  }

  /** The lock's holder presents the working copy `p` lies in. */
  predicate Presents(sys: System, p: Path) {
    && sys.holder.Some? && sys.holder.value in sys.requests
    && sys.requests[sys.holder.value].workspace != sys.session.root
    && StartsWith(p, sys.requests[sys.holder.value].workspace)
  }

  ghost predicate Allowed(sys: System, step: Step) {
    match step
    case Arrive(id, _, delta) => id !in sys.requests && AllRelative(delta)
    case Acquire(id, co, ao) =>
      && sys.holder == None && id in sys.requests && sys.requests[id].phase == Waiting
      && Enumerates(co, sys.session.overlay.changed) && Enumerates(ao, sys.session.overlay.added)
    case ShowNext(id) =>
      && Holds(sys, id) && sys.requests[id].phase.Overlaying?
      && sys.requests[id].phase.shown < |sys.requests[id].delta|
      && sys.requests[id].workspace != sys.session.root
    case Start(id) =>
      && Holds(sys, id) && sys.requests[id].phase.Overlaying?
      && (sys.requests[id].phase.shown == |sys.requests[id].delta|
          || sys.requests[id].workspace == sys.session.root)
    case OpenDocument(id, _) => Holds(sys, id) && sys.requests[id].phase == Running
    case RestoreView(id, co, ao) =>
      && Holds(sys, id) && sys.requests[id].phase == Running
      && Enumerates(co, sys.session.overlay.changed) && Enumerates(ao, sys.session.overlay.added)
    case FinishEdit(id, _) => Holds(sys, id) && sys.requests[id].phase == Restored
    case Release(id) => Holds(sys, id) && sys.requests[id].phase == Restored
    case Drop(id) => id in sys.requests && sys.requests[id].phase != Ended
    case OutsideWrite(path, _) => !Presents(sys, path)
  }

  ghost function Next(sys: System, step: Step): System
    requires Allowed(sys, step)
  {
    match step
    case Arrive(id, workspace, delta) =>
      sys.(requests := sys.requests[id := Request(workspace, delta, Waiting)])
    case Acquire(id, co, ao) =>
      Enter(sys.(holder := Some(id), session := BeginRequest(sys.session, sys.disk, co, ao),
                 stale := StaleAfterBegin(sys.session, sys.disk, sys.stale)), id, Overlaying(0))
    case ShowNext(id) =>
      var r := sys.requests[id];
      Enter(sys.(session := OverlayOne(sys.session, sys.disk, r.workspace, r.delta[r.phase.shown])),
        id, Overlaying(r.phase.shown + 1))
    case Start(id) => Enter(sys, id, Running)
    case OpenDocument(id, path) => sys.(session := EnsureOpen(sys.session, sys.disk, path))
    case RestoreView(id, co, ao) =>
      Enter(sys.(session := Session.Restore(sys.session, sys.disk, co, ao),
                 stale := StillStale(sys.session, sys.disk, sys.stale)), id, Restored)
    case FinishEdit(id, edit) =>
      var workspace := sys.requests[id].workspace;
      var after := Applied(sys.disk, edit, workspace).0;
      var synced := Synced(sys.session, sys.disk, workspace, edit);
      Enter(sys.(holder := None, session := synced, disk := after,
                 stale := (sys.stale + Disturbed(sys.session, sys.disk, after)) * synced.openDocs), id, Ended)
    case Release(id) => Enter(sys.(holder := None), id, Ended)
    case Drop(id) => Enter(sys.(holder := if sys.holder == Some(id) then None else sys.holder), id, Ended)
    case OutsideWrite(path, text) =>
      var after := if text.Some? then sys.disk[path := text.value] else sys.disk - {path};
      sys.(disk := after, stale := sys.stale + Disturbed(sys.session, sys.disk, after))
  }

  /** The session after an edit was applied: synced when it is the session's own
      checkout and the application succeeded. */
  ghost function Synced(s: State, disk: Disk, workspace: Path, edit: WorkspaceEdit): State {
    var result := Applied(disk, edit, workspace).1;
    if workspace == s.root && result.Ok? then SyncChanged(s, result.value) else s
  }

  // ---------------------------------------------------------------- the invariant

  /** The session shows `done` of the working copy, or the base checkout itself. */
  ghost predicate Shows(s: State, disk: Disk, workspace: Path, done: seq<Path>, stale: set<Path> := {}) {
    if workspace == s.root then Clean(s, disk, stale) else Overlaid(s, disk, workspace, done, stale)
  }

  ghost predicate HolderOk(sys: System, r: Request) {
    match r.phase
    case Overlaying(shown) =>
      shown <= |r.delta| && Shows(sys.session, sys.disk, r.workspace, r.delta[..shown], sys.stale)
    case Running => Shows(sys.session, sys.disk, r.workspace, r.delta, sys.stale)
    case Restored => Clean(sys.session, sys.disk, sys.stale)
    case _ => false
  }

  ghost predicate Inv(sys: System) {
    && Versioned(sys.session)
    && Idle(sys.session, sys.disk, sys.stale)
    && sys.stale <= sys.session.openDocs
    && (forall id :: id in sys.requests ==> AllRelative(sys.requests[id].delta))
    && (sys.holder.Some? ==> sys.holder.value in sys.requests && HolderOk(sys, sys.requests[sys.holder.value]))
  }

  ghost predicate Initial(sys: System) {
    && IsRoot(sys.session.root)
    && sys.session == NewState(sys.session.root, sys.session.langs)
    && sys.stale == {} && sys.holder == None && sys.requests == map[]
  }

  lemma CleanShowsNothing(s: State, disk: Disk, workspace: Path, stale: set<Path>)
    requires Clean(s, disk, stale)
    ensures Shows(s, disk, workspace, [], stale)
  {
    assert ShownPaths(s, disk, workspace, []) == {};
  }

  lemma AcquireInv(sys: System, step: Step)
    requires Inv(sys) && step.Acquire? && Allowed(sys, step)
    ensures Inv(Next(sys, step))
  {
    var s, disk := sys.session, sys.disk;
    RestoreLeavesStale(s, disk, step.changedOrder, step.addedOrder, sys.stale);
    RestoreEffect(s, disk, step.changedOrder, step.addedOrder);
    var t := BeginRequest(s, disk, step.changedOrder, step.addedOrder);
    var stale := StaleAfterBegin(s, disk, sys.stale);
    assert Clean(t, disk, stale) && Versioned(t);
    var r := sys.requests[step.id];
    CleanShowsNothing(t, disk, r.workspace, stale);
    assert r.delta[..0] == [];
  }

  lemma ShowNextInv(sys: System, step: Step)
    requires Inv(sys) && step.ShowNext? && Allowed(sys, step)
    ensures Inv(Next(sys, step))
  {
    var s, r := sys.session, sys.requests[step.id];
    var n := r.phase.shown;
    OverlayOneKeeps(s, sys.disk, r.workspace, r.delta[..n], r.delta[n], sys.stale);
    OverlayOneVersioned(s, sys.disk, r.workspace, r.delta[n]);
    assert r.delta[..n] + [r.delta[n]] == r.delta[..n + 1];
  }

  lemma StartInv(sys: System, step: Step)
    requires Inv(sys) && step.Start? && Allowed(sys, step)
    ensures Inv(Next(sys, step))
  {
    var r := sys.requests[step.id];
    assert r.delta[..|r.delta|] == r.delta;
  }

  lemma OpenDocumentInv(sys: System, step: Step)
    requires Inv(sys) && step.OpenDocument? && Allowed(sys, step)
    ensures Inv(Next(sys, step))
  {
    var s, r := sys.session, sys.requests[step.id];
    EnsureOpenEffect(s, sys.disk, step.path);
    EnsureOpenKeepsIdle(s, sys.disk, step.path, sys.stale);
    EnsureOpenVersioned(s, sys.disk, step.path);
    if r.workspace != s.root {
      EnsureOpenKeepsOverlaid(s, sys.disk, step.path, r.workspace, r.delta, sys.stale);
    }
  }

  lemma RestoreViewInv(sys: System, step: Step)
    requires Inv(sys) && step.RestoreView? && Allowed(sys, step)
    ensures Inv(Next(sys, step))
  {
    RestoreLeavesStale(sys.session, sys.disk, step.changedOrder, step.addedOrder, sys.stale);
    RestoreEffect(sys.session, sys.disk, step.changedOrder, step.addedOrder);
  }

  lemma FinishEditInv(sys: System, step: Step)
    requires Inv(sys) && step.FinishEdit? && Allowed(sys, step)
    ensures Inv(Next(sys, step)) && Clean(Next(sys, step).session, Next(sys, step).disk, Next(sys, step).stale)
  {
    SyncedStaysClean(sys, sys.requests[step.id].workspace, step.edit);
  }

  lemma SyncedStaysClean(sys: System, workspace: Path, edit: WorkspaceEdit)
    requires Clean(sys.session, sys.disk, sys.stale)
    ensures var t, after := Synced(sys.session, sys.disk, workspace, edit), Applied(sys.disk, edit, workspace).0;
      Clean(t, after, (sys.stale + Disturbed(sys.session, sys.disk, after)) * t.openDocs)
    ensures Versioned(sys.session) ==> Versioned(Synced(sys.session, sys.disk, workspace, edit))
  {
    var s := sys.session;
    var (after, result) := Applied(sys.disk, edit, workspace);
    if workspace == s.root && result.Ok? {
      SyncChangedEffect(s, result.value);
      SubsetStaysClean(s, sys.disk, SyncChanged(s, result.value), after, sys.stale);
    } else {
      SubsetStaysClean(s, sys.disk, s, after, sys.stale);
    }
  }

  /** A session left with some of its documents is clean but for those now stale. */
  lemma SubsetStaysClean(s: State, disk: Disk, t: State, after: Disk, stale: set<Path>)
    requires Clean(s, disk, stale)
    requires t == s.(openDocs := t.openDocs, trace := t.trace, server := t.server)
    requires t.openDocs == t.server.docs.Keys && t.openDocs <= s.openDocs
    requires forall p :: p in t.openDocs ==> t.server.docs[p] == s.server.docs[p]
    ensures Clean(t, after, (stale + Disturbed(s, disk, after)) * t.openDocs)
  {
    forall p | p in t.openDocs && StartsWith(p, s.root) && p !in stale && p !in Disturbed(s, disk, after)
      ensures HoldsFile(t, after, p)
    {
      assert HoldsFile(s, disk, p) && SameAt(after, disk, p);
    }
  }

  lemma OutsideWriteInv(sys: System, step: Step)
    requires Inv(sys) && step.OutsideWrite? && Allowed(sys, step)
    ensures Inv(Next(sys, step))
  {
    var s, disk, next := sys.session, sys.disk, Next(sys, step);
    DisturbedIdle(s, disk, next.disk, sys.stale);
    if sys.holder.Some? {
      var r := sys.requests[sys.holder.value];
      if r.workspace != s.root {
        forall rel | !IsAbsolute(rel) ensures SameAt(next.disk, disk, Join(r.workspace, rel)) {
          assert StartsWith(r.workspace + rel, r.workspace);
        }
        DisturbedOverlaid(s, disk, next.disk, r.workspace, r.delta, sys.stale);
        if r.phase.Overlaying? {
          DisturbedOverlaid(s, disk, next.disk, r.workspace, r.delta[..r.phase.shown], sys.stale);
        }
      }
    }
  }

  lemma DisturbedIdle(s: State, disk: Disk, after: Disk, stale: set<Path>)
    requires Idle(s, disk, stale)
    ensures Idle(s, after, stale + Disturbed(s, disk, after))
    ensures Clean(s, disk, stale) ==> Clean(s, after, stale + Disturbed(s, disk, after))
  {
  }

  lemma DisturbedOverlaid(s: State, disk: Disk, after: Disk, workspace: Path, done: seq<Path>, stale: set<Path>)
    requires AllRelative(done)
    requires forall rel :: !IsAbsolute(rel) ==> SameAt(after, disk, Join(workspace, rel))
    ensures Overlaid(s, disk, workspace, done, stale) ==>
      Overlaid(s, after, workspace, done, stale + Disturbed(s, disk, after))
  {
    assert forall rel :: rel in done ==>
      (Shown(s.langs, disk, workspace, rel) <==> Shown(s.langs, after, workspace, rel));
    assert ShownPaths(s, disk, workspace, done) == ShownPaths(s, after, workspace, done);
    if Idle(s, disk, stale) {
      DisturbedIdle(s, disk, after, stale);
    }
  }

  /** Every step of every request keeps the invariant. */
  lemma StepKeepsInv(sys: System, step: Step)
    requires Inv(sys) && Allowed(sys, step)
    ensures Inv(Next(sys, step))
  {
    match step {
      case Arrive(_, _, _) =>
      case Acquire(_, _, _) => AcquireInv(sys, step);
      case ShowNext(_) => ShowNextInv(sys, step);
      case Start(_) => StartInv(sys, step);
      case OpenDocument(_, _) => OpenDocumentInv(sys, step);
      case RestoreView(_, _, _) => RestoreViewInv(sys, step);
      case FinishEdit(_, _) => FinishEditInv(sys, step);
      case Release(_) =>
      case Drop(_) =>
      case OutsideWrite(_, _) => OutsideWriteInv(sys, step);
    }
  }

  // ---------------------------------------------------------------- what makes a document stale

  /** An edit keeps every open document true to its file: one that succeeds on the base
      checkout, and so is synced, reports every open file it renames away; any other one
      rewrites nothing, or leaves every open document its text. */
  ghost predicate KeepsView(s: State, disk: Disk, workspace: Path, edit: WorkspaceEdit) {
    if workspace == s.root && Succeeds(disk, edit, workspace) then SourcesReported(s, disk, edit)
    else !AllRewrite(disk, edit, workspace) || KeepsOpenTexts(s, disk, edit, workspace)
  }

  /** An application, synced or not as the program decides, keeps the session's view
      true exactly when its edit does. */
  lemma AppliedViewExactly(s: State, disk: Disk, workspace: Path, edit: WorkspaceEdit)
    requires Clean(s, disk) && EditWellFormed(edit)
    ensures Clean(Synced(s, disk, workspace, edit), Applied(disk, edit, workspace).0)
      <==> KeepsView(s, disk, workspace, edit)
  {
    AppliedExactly(disk, edit, workspace, workspace);
    if workspace == s.root && Succeeds(disk, edit, workspace) {
      SyncKeepsCleanExactly(s, disk, edit);
    } else {
      UnsyncedKeepsCleanExactly(s, disk, edit, workspace);
    }
  }

  /** Finishing a request leaves a stale document where there was none exactly when its
      edit does not keep the view. */
  lemma FinishStalesExactly(sys: System, id: nat, edit: WorkspaceEdit)
    requires Inv(sys) && sys.stale == {} && Allowed(sys, FinishEdit(id, edit)) && EditWellFormed(edit)
    ensures Next(sys, FinishEdit(id, edit)).stale == {}
      <==> KeepsView(sys.session, sys.disk, sys.requests[id].workspace, edit)
  {
    FinishEditInv(sys, FinishEdit(id, edit));
    StaleExactly(sys, id, edit);
    AppliedViewExactly(sys.session, sys.disk, sys.requests[id].workspace, edit);
  }

  lemma StaleExactly(sys: System, id: nat, edit: WorkspaceEdit)
    requires Inv(sys) && sys.stale == {} && Allowed(sys, FinishEdit(id, edit))
    ensures var next := Next(sys, FinishEdit(id, edit)); next.stale == {} <==> Clean(next.session, next.disk)
  {
    var next := Next(sys, FinishEdit(id, edit));
    FinishEditInv(sys, FinishEdit(id, edit));
    var workspace := sys.requests[id].workspace;
    var result := Applied(sys.disk, edit, workspace).1;
    if workspace == sys.session.root && result.Ok? {
      SyncChangedEffect(sys.session, result.value);
    }
    if Clean(next.session, next.disk) {
      forall p | p in next.session.openDocs && StartsWith(p, sys.session.root) ensures SameAt(next.disk, sys.disk, p) {
        assert HoldsFile(sys.session, sys.disk, p) && HoldsFile(next.session, next.disk, p);
      }
      assert Disturbed(sys.session, sys.disk, next.disk) * next.session.openDocs == {};
    }
  }

  // ---------------------------------------------------------------- runs

  /** Every step of the run is allowed where it is taken. */
  ghost predicate Legal(initial: System, steps: seq<Step>)
    decreases |steps|, 1
  {
    steps == [] ||
    (Legal(initial, steps[..|steps| - 1])
     && Allowed(After(initial, steps[..|steps| - 1]), steps[|steps| - 1]))
  }

  ghost function After(initial: System, steps: seq<Step>): System
    requires Legal(initial, steps)
    decreases |steps|, 2
  {
    if steps == [] then initial
    else Next(After(initial, steps[..|steps| - 1]), steps[|steps| - 1])
  }

  lemma {:induction false} RunKeepsInv(initial: System, steps: seq<Step>)
    requires Initial(initial) && Legal(initial, steps)
    ensures Inv(After(initial, steps))
  {
    if steps != [] {
      RunKeepsInv(initial, steps[..|steps| - 1]);
      StepKeepsInv(After(initial, steps[..|steps| - 1]), steps[|steps| - 1]);
    }
  }

  /** `p` is a file the request presents. */
  predicate OwnFile(sys: System, r: Request, p: Path)
    requires StartsWith(p, sys.session.root)
  {
    var rel := p[|sys.session.root|..];
    r.workspace != sys.session.root && rel in r.delta && Shown(sys.session.langs, sys.disk, r.workspace, rel)
  }

  lemma RunningView(sys: System, id: nat, p: Path)
    requires Inv(sys) && Holds(sys, id) && sys.requests[id].phase == Running && StartsWith(p, sys.session.root)
    requires p !in sys.stale || OwnFile(sys, sys.requests[id], p)
    ensures var r := sys.requests[id];
      ViewAt(sys.session, sys.disk, p)
      == OverlayView(sys.session.langs, sys.session.root, sys.disk, r.workspace, r.delta, p)
  {
    var r, s := sys.requests[id], sys.session;
    assert s.root + p[|s.root|..] == p;
    if r.workspace != s.root {
      assert OwnFile(sys, r, p) ==> p in ShownPaths(s, sys.disk, r.workspace, r.delta);
      OverlaidViewIsSimpleView(s, sys.disk, r.workspace, r.delta, p, sys.stale);
    } else {
      assert p in s.openDocs ==> HoldsFile(s, sys.disk, p);
    }
  }

  /** In every run, whatever edits were applied and whatever else wrote to the disk,
      whenever a request's operation runs, the server's view of every path under the
      root that the request presents or that is not stale is the base checkout with
      that request's own readable, indexed delta files: no other request's overlay,
      leaked or not, is visible. */
  lemma EveryRequestSeesItsOwnCopy(initial: System, steps: seq<Step>, id: nat, p: Path)
    requires Initial(initial) && Legal(initial, steps)
    requires var sys := After(initial, steps);
      && Holds(sys, id) && sys.requests[id].phase == Running && StartsWith(p, sys.session.root)
      && (p !in sys.stale || OwnFile(sys, sys.requests[id], p))
    ensures var sys := After(initial, steps);
      var r := sys.requests[id];
      ViewAt(sys.session, sys.disk, p)
      == OverlayView(sys.session.langs, sys.session.root, sys.disk, r.workspace, r.delta, p)
  {
    RunKeepsInv(initial, steps);
    RunningView(After(initial, steps), id, p);
  }

  /** A step makes a document stale only by changing its file while it is open. */
  lemma StaleMeansChanged(sys: System, step: Step, p: Path)
    requires Inv(sys) && Allowed(sys, step) && p in Next(sys, step).stale && p !in sys.stale
    ensures p in Next(sys, step).session.openDocs && StartsWith(p, sys.session.root)
    ensures !SameAt(Next(sys, step).disk, sys.disk, p)
  {
    StepKeepsInv(sys, step);
  }

  /** Every edit of the run keeps the view, and nothing else writes to the base checkout. */
  ghost predicate Considerate(initial: System, steps: seq<Step>)
    requires Legal(initial, steps)
    decreases |steps|
  {
    steps == [] ||
    (var before, step := After(initial, steps[..|steps| - 1]), steps[|steps| - 1];
     && Considerate(initial, steps[..|steps| - 1])
     && match step
        case FinishEdit(id, edit) =>
          var s, workspace := before.session, before.requests[id].workspace;
          EditWellFormed(edit) && KeepsView(s, before.disk, workspace, edit)
        case OutsideWrite(path, _) => !StartsWith(path, before.session.root)
        case _ => true)
  }

  /** Then no document is ever stale, so every request sees exactly its own copy. */
  lemma {:induction false} NothingGoesStale(initial: System, steps: seq<Step>)
    requires Initial(initial) && Legal(initial, steps) && Considerate(initial, steps)
    ensures After(initial, steps).stale == {}
    decreases |steps|
  {
    if steps != [] {
      var rest, step := steps[..|steps| - 1], steps[|steps| - 1];
      NothingGoesStale(initial, rest);
      RunKeepsInv(initial, rest);
      if step.FinishEdit? {
        FinishStalesExactly(After(initial, rest), step.id, step.edit);
      }
    }
  }

  /** In every run the session and the server agree on what is open, and with no
      overlay flagged, or once a request has restored, every open document under the
      root that is not stale holds its base text. */
  lemma BaseViewBetweenOperations(initial: System, steps: seq<Step>)
    requires Initial(initial) && Legal(initial, steps)
    ensures var sys := After(initial, steps);
      && sys.session.openDocs == sys.session.server.docs.Keys
      && (!sys.session.dirty ==> Clean(sys.session, sys.disk, sys.stale))
      && forall id :: Holds(sys, id) && sys.requests[id].phase == Restored ==> Clean(sys.session, sys.disk, sys.stale)
  {
    RunKeepsInv(initial, steps);
  }

  /** In every run, the notifications sent keep the synchronization rules of LSP 3.17
      exactly as long as the 32-bit version counter has not wrapped. */
  lemma EveryRunKeepsTheProtocolExactly(initial: System, steps: seq<Step>)
    requires Initial(initial) && Legal(initial, steps)
    ensures Protocol.WellFormedTrace(After(initial, steps).session.trace)
      <==> Changes(After(initial, steps).session.trace) + 1 < VERSIONS
  {
    RunKeepsInv(initial, steps);
    Protocol.TraceKeepsRulesExactly(After(initial, steps).session);
  }
}
