/** A request dropped inside one of the session's own procedures: presenting a file,
    opening a document, restoring, syncing. Each notifies the server and keeps its own
    books in separate actions, and a request can be dropped between any two of them. */
module Abandon {
  import opened Wrappers
  import opened Paths
  import opened Applier
  import opened Session
  import Protocol
  import Requests

  // ---------------------------------------------------------------- dropped while presenting a file

  /** The session after the first `k` of the three actions of presenting `rel`. */
  function Partial(s: State, disk: Disk, workspace: Path, rel: Path, k: nat): State
    requires Shown(s.langs, disk, workspace, rel)
  {
    var content, base := disk[Join(workspace, rel)], Join(s.root, rel);
    if k == 0 then s
    else if k >= 3 then OverlayOne(s, disk, workspace, rel)
    else if base in s.openDocs then SendChange(s, base, content)
    else
      var sent := SendOpen(s, base, content);
      if k == 1 then sent else sent.(openDocs := sent.openDocs + {base})
  }

  /** Where a request may be dropped without the next one seeing it: before the
      notification, after the record, or anywhere if the record already covers the
      file; in between only when the working copy's text is the base text and the
      open set is not left behind the server. */
  predicate SafePoint(s: State, disk: Disk, workspace: Path, rel: Path, k: nat)
    requires Shown(s.langs, disk, workspace, rel)
  {
    var base := Join(s.root, rel);
    || k == 0 || k >= 3 || Recorded(s, base)
    || (FileAt(disk, base) == Some(disk[Join(workspace, rel)]) && (base in s.openDocs || k == 2))
  }

  lemma RestoreKeepsOthers(t: State, disk: Disk, changedOrder: seq<Path>, addedOrder: seq<Path>, p: Path)
    requires Enumerates(changedOrder, t.overlay.changed) && Enumerates(addedOrder, t.overlay.added)
    requires t.overlay.changed <= t.server.docs.Keys && t.overlay.added <= t.server.docs.Keys
    requires !Recorded(t, p)
    ensures var u := Restore(t, disk, changedOrder, addedOrder);
      && (p in u.openDocs <==> p in t.openDocs)
      && (p in u.server.docs <==> p in t.server.docs)
      && (p in t.server.docs ==> u.server.docs[p].text == t.server.docs[p].text)
  {
    var taken := t.(overlayRoot := None, overlay := NO_OVERLAY);
    ChangeBackEffect(taken, disk, changedOrder);
    CloseEachEffect(ChangeBack(taken, disk, changedOrder), addedOrder);
  }

  /** When the points in between are safe the partial state is tracked and restorable. */
  lemma SafePartialIsIdle(s: State, disk: Disk, workspace: Path, rel: Path, k: nat)
    requires Idle(s, disk) && !IsAbsolute(rel) && Shown(s.langs, disk, workspace, rel)
    requires SafePoint(s, disk, workspace, rel, k)
    ensures Idle(Partial(s, disk, workspace, rel, k), disk)
  {
    OverlayOneIdle(s, disk, workspace, rel);
  }

  /** After the first or second action the server shows the working copy's text. */
  lemma PartialEffect(s: State, disk: Disk, workspace: Path, rel: Path, k: nat)
    requires s.openDocs == s.server.docs.Keys && !IsAbsolute(rel) && Shown(s.langs, disk, workspace, rel)
    requires k == 1 || k == 2
    ensures var t, base := Partial(s, disk, workspace, rel, k), s.root + rel;
      && t.overlay == s.overlay && t.root == s.root && t.dirty == s.dirty
      && t.server.docs.Keys == s.server.docs.Keys + {base}
      && t.server.docs[base].text == disk[Join(workspace, rel)]
      && t.openDocs == (if k == 2 then s.openDocs + {base} else s.openDocs)
  {
    var base := s.root + rel;
    if base in s.openDocs {
      assert s.openDocs + {base} == s.openDocs;
    }
  }

  lemma BeginKeepsOthers(t: State, disk: Disk, changedOrder: seq<Path>, addedOrder: seq<Path>, p: Path)
    requires Enumerates(changedOrder, t.overlay.changed) && Enumerates(addedOrder, t.overlay.added)
    requires t.overlay.changed <= t.server.docs.Keys && t.overlay.added <= t.server.docs.Keys
    requires !Recorded(t, p) && p in t.server.docs
    ensures var u := BeginRequest(t, disk, changedOrder, addedOrder);
      && u.root == t.root
      && (p in u.openDocs <==> p in t.openDocs)
      && p in u.server.docs && u.server.docs[p].text == t.server.docs[p].text
  {
    RestoreKeepsOthers(t, disk, changedOrder, addedOrder, p);
    var taken := t.(overlayRoot := None, overlay := NO_OVERLAY);
    ChangeBackEffect(taken, disk, changedOrder);
    CloseEachEffect(ChangeBack(taken, disk, changedOrder), addedOrder);
  }

  lemma UnsafeStaysVisible(s: State, disk: Disk, workspace: Path, rel: Path, k: nat,
                           changedOrder: seq<Path>, addedOrder: seq<Path>)
    requires Idle(s, disk) && !IsAbsolute(rel) && Shown(s.langs, disk, workspace, rel)
    requires !SafePoint(s, disk, workspace, rel, k)
    requires Enumerates(changedOrder, s.overlay.changed) && Enumerates(addedOrder, s.overlay.added)
    ensures !Clean(BeginRequest(Partial(s, disk, workspace, rel, k), disk, changedOrder, addedOrder), disk)
  {
    BaseInjective(s.root, rel, rel);
    PartialEffect(s, disk, workspace, rel, k);
    BeginKeepsOthers(Partial(s, disk, workspace, rel, k), disk, changedOrder, addedOrder, s.root + rel);
  }

  /** The next request starts from a clean session exactly when the previous one was
      dropped at a safe point. */
  lemma NextRequestIsCleanExactly(s: State, disk: Disk, workspace: Path, rel: Path, k: nat,
                                  changedOrder: seq<Path>, addedOrder: seq<Path>)
    requires Idle(s, disk) && !IsAbsolute(rel) && Shown(s.langs, disk, workspace, rel)
    requires var t := Partial(s, disk, workspace, rel, k);
      Enumerates(changedOrder, t.overlay.changed) && Enumerates(addedOrder, t.overlay.added)
    ensures Clean(BeginRequest(Partial(s, disk, workspace, rel, k), disk, changedOrder, addedOrder), disk)
      <==> SafePoint(s, disk, workspace, rel, k)
  {
    if SafePoint(s, disk, workspace, rel, k) {
      SafePartialIsIdle(s, disk, workspace, rel, k);
      RestoreCleansExactly(Partial(s, disk, workspace, rel, k), disk, changedOrder, addedOrder);
    } else {
      assert Partial(s, disk, workspace, rel, k).overlay == s.overlay;
      UnsafeStaysVisible(s, disk, workspace, rel, k, changedOrder, addedOrder);
    }
  }

  // ---------------------------------------------------------------- dropped while opening a document

  /** The session after the first `k` of the two actions of opening a document: the
      notification, then the open set. */
  function Opening(s: State, disk: Disk, path: Path, k: nat): State {
    var abs := Resolve(path, s.root);
    if k == 0 || abs in s.openDocs || abs !in disk then s
    else if k == 1 then SendOpen(s, abs, disk[abs])
    else EnsureOpen(s, disk, path)
  }

  /** The document was opened in the server and not yet in the open set. */
  predicate Unbooked(s: State, disk: Disk, path: Path, k: nat) {
    var abs := Resolve(path, s.root);
    k == 1 && abs !in s.openDocs && abs in disk
  }

  lemma UnbookedStays(s: State, disk: Disk, path: Path, k: nat, changedOrder: seq<Path>, addedOrder: seq<Path>)
    requires s.openDocs == s.server.docs.Keys
    requires s.overlay.changed <= s.openDocs && s.overlay.added <= s.openDocs
    requires Enumerates(changedOrder, s.overlay.changed) && Enumerates(addedOrder, s.overlay.added)
    requires Unbooked(s, disk, path, k)
    ensures var u, abs := BeginRequest(Opening(s, disk, path, k), disk, changedOrder, addedOrder), Resolve(path, s.root);
      u.root == s.root && abs !in u.openDocs && abs in u.server.docs
  {
    var abs := Resolve(path, s.root);
    BeginKeepsOthers(Opening(s, disk, path, k), disk, changedOrder, addedOrder, abs);
  }

  /** A request dropped while it opens a document leaves the next one a clean session
      exactly when the notification was not sent or the open set knows of it. */
  lemma DroppedOpenIsCleanExactly(s: State, disk: Disk, path: Path, k: nat,
                                  changedOrder: seq<Path>, addedOrder: seq<Path>, stale: set<Path> := {})
    requires Idle(s, disk, stale)
    requires Enumerates(changedOrder, s.overlay.changed) && Enumerates(addedOrder, s.overlay.added)
    ensures Clean(BeginRequest(Opening(s, disk, path, k), disk, changedOrder, addedOrder), disk, stale)
      <==> !Unbooked(s, disk, path, k)
  {
    if Unbooked(s, disk, path, k) {
      UnbookedStays(s, disk, path, k, changedOrder, addedOrder);
    } else {
      EnsureOpenKeepsIdle(s, disk, path, stale);
      EnsureOpenEffect(s, disk, path);
      RestoreCleansExactly(Opening(s, disk, path, k), disk, changedOrder, addedOrder, stale);
    }
  }

  /** Opening the file again then breaks the document rules, long before any wrap:
      the server has it open. From any other point the rules hold until the wrap. */
  lemma OpeningAgainKeepsRulesExactly(s: State, disk: Disk, path: Path, k: nat,
                                      changedOrder: seq<Path>, addedOrder: seq<Path>, later: Disk,
                                      stale: set<Path> := {})
    requires Idle(s, disk, stale) && Versioned(s)
    requires Enumerates(changedOrder, s.overlay.changed) && Enumerates(addedOrder, s.overlay.added)
    ensures var u := BeginRequest(Opening(s, disk, path, k), disk, changedOrder, addedOrder);
      var v := EnsureOpen(u, later, path);
      Protocol.WellFormedTrace(v.trace) <==>
        Changes(v.trace) + 1 < VERSIONS && !(Unbooked(s, disk, path, k) && Resolve(path, s.root) in later)
  {
    var t := Opening(s, disk, path, k);
    var u := BeginRequest(t, disk, changedOrder, addedOrder);
    OpeningVersioned(s, disk, path, k);
    BeginVersioned(t, disk, changedOrder, addedOrder);
    var abs, v := Resolve(path, s.root), EnsureOpen(u, later, path);
    if Unbooked(s, disk, path, k) {
      UnbookedStays(s, disk, path, k, changedOrder, addedOrder);
      if abs in later {
        SendTrace(u, DidOpen(abs, 1, later[abs]));
        Protocol.AcceptedExactly(v.trace);
      } else {
        Protocol.TraceKeepsRulesExactly(v);
      }
    } else {
      DroppedOpenIsCleanExactly(s, disk, path, k, changedOrder, addedOrder, stale);
      EnsureOpenVersioned(u, later, path);
      Protocol.TraceKeepsRulesExactly(v);
    }
  }

  lemma OpeningVersioned(s: State, disk: Disk, path: Path, k: nat)
    requires Versioned(s) && s.openDocs == s.server.docs.Keys
    ensures Versioned(Opening(s, disk, path, k))
    ensures Opening(s, disk, path, k).overlay == s.overlay
    ensures s.server.docs.Keys <= Opening(s, disk, path, k).server.docs.Keys
  {
    EnsureOpenVersioned(s, disk, path);
    if Unbooked(s, disk, path, k) {
      OpenVersioned(s, Resolve(path, s.root), disk[Resolve(path, s.root)]);
    }
  }

  lemma BeginVersioned(t: State, disk: Disk, changedOrder: seq<Path>, addedOrder: seq<Path>)
    requires Enumerates(changedOrder, t.overlay.changed) && Enumerates(addedOrder, t.overlay.added)
    requires t.overlay.changed <= t.server.docs.Keys && t.overlay.added <= t.server.docs.Keys
    requires Versioned(t)
    ensures Versioned(BeginRequest(t, disk, changedOrder, addedOrder))
  {
    var taken := t.(overlayRoot := None, overlay := NO_OVERLAY);
    ChangeBackEffect(taken, disk, changedOrder);
    CloseEachEffect(ChangeBack(taken, disk, changedOrder), addedOrder);
  }

  /** So after any run at all: a running request dropped between the notification that
      opened a file and the open set leaves a trace that keeps the rules as long as the
      counter has not wrapped, and that the next open of that file breaks. */
  lemma DroppedOpenAfterAnyRun(initial: Requests.System, steps: seq<Requests.Step>, id: nat, path: Path,
                               changedOrder: seq<Path>, addedOrder: seq<Path>, later: Disk)
    requires Requests.Initial(initial) && Requests.Legal(initial, steps)
    requires var sys := Requests.After(initial, steps);
      && Requests.Allowed(sys, Requests.OpenDocument(id, path)) && Unbooked(sys.session, sys.disk, path, 1)
      && Resolve(path, sys.session.root) in later
      && Enumerates(changedOrder, sys.session.overlay.changed) && Enumerates(addedOrder, sys.session.overlay.added)
    ensures var sys := Requests.After(initial, steps);
      var t := Opening(sys.session, sys.disk, path, 1);
      var u := BeginRequest(t, sys.disk, changedOrder, addedOrder);
      && (Protocol.WellFormedTrace(t.trace) <==> Changes(t.trace) + 1 < VERSIONS)
      && !Clean(u, sys.disk, sys.stale)
      && !Protocol.WellFormedTrace(EnsureOpen(u, later, path).trace)
  {
    Requests.RunKeepsInv(initial, steps);
    var sys := Requests.After(initial, steps);
    OpeningVersioned(sys.session, sys.disk, path, 1);
    Protocol.TraceKeepsRulesExactly(Opening(sys.session, sys.disk, path, 1));
    DroppedOpenIsCleanExactly(sys.session, sys.disk, path, 1, changedOrder, addedOrder, sys.stale);
    OpeningAgainKeepsRulesExactly(sys.session, sys.disk, path, 1, changedOrder, addedOrder, later, sys.stale);
  }

  // ---------------------------------------------------------------- dropped while restoring

  /** The session after the restore took the record, sent back the first `i` changes and
      closed the first `j` documents; with `half`, after the next close was sent but
      before the open set forgot the document. The flag is still set. */
  function PartlyRestored(s: State, disk: Disk, changedOrder: seq<Path>, addedOrder: seq<Path>,
                          i: nat, j: nat, half: bool): State
    requires i <= |changedOrder| && j <= |addedOrder| && (half ==> j < |addedOrder|)
  {
    var taken := s.(overlayRoot := None, overlay := NO_OVERLAY);
    var t := CloseEach(ChangeBack(taken, disk, changedOrder[..i]), addedOrder[..j]);
    if half then Send(t, DidClose(addedOrder[j])) else t
  }

  /** What the next request finds of `p`, which the record named, is its file's text: it
      was closed or changed back in time, or the overlay's text is the base text. */
  predicate LeftTrue(s: State, disk: Disk, changedOrder: seq<Path>, addedOrder: seq<Path>, i: nat, j: nat, p: Path)
    requires i <= |changedOrder| && j <= |addedOrder|
  {
    p in addedOrder[..j] || (p in changedOrder[..i] && p in disk) || HoldsFile(s, disk, p)
  }

  lemma PartlyRestoredEffect(s: State, disk: Disk, changedOrder: seq<Path>, addedOrder: seq<Path>, i: nat, j: nat)
    requires s.openDocs == s.server.docs.Keys
    requires s.overlay.changed <= s.openDocs && s.overlay.added <= s.openDocs
    requires Enumerates(changedOrder, s.overlay.changed) && Enumerates(addedOrder, s.overlay.added)
    requires i <= |changedOrder| && j <= |addedOrder|
    ensures var t := PartlyRestored(s, disk, changedOrder, addedOrder, i, j, false);
      && t == s.(overlayRoot := None, overlay := NO_OVERLAY, openDocs := t.openDocs,
                 docVersion := t.docVersion, trace := t.trace, server := t.server)
      && t.openDocs == t.server.docs.Keys
      && (forall p :: p in t.openDocs <==> p in s.openDocs && p !in addedOrder[..j])
      && (forall p :: p in t.openDocs ==>
        t.server.docs[p].text == if p in changedOrder[..i] && p in disk then disk[p] else s.server.docs[p].text)
  {
    var taken := s.(overlayRoot := None, overlay := NO_OVERLAY);
    ChangeBackEffect(taken, disk, changedOrder[..i]);
    CloseEachEffect(ChangeBack(taken, disk, changedOrder[..i]), addedOrder[..j]);
  }

  lemma NothingLeftToRestore(t: State, disk: Disk)
    requires t.overlay == NO_OVERLAY
    ensures BeginRequest(t, disk, [], []) == t.(dirty := false, overlayRoot := if t.dirty then None else t.overlayRoot)
  {
  }

  /** A request dropped while it restores leaves the next one a clean session exactly
      when it is not caught between a close and its bookkeeping, and every document of
      the record was dealt with or never differed from the base. The record is taken
      before anything is sent, so the set flag finds nothing left to undo. */
  lemma DroppedRestoreIsCleanExactly(s: State, disk: Disk, changedOrder: seq<Path>, addedOrder: seq<Path>,
                                     i: nat, j: nat, half: bool)
    requires Tracked(s, disk) && s.dirty
    requires Enumerates(changedOrder, s.overlay.changed) && Enumerates(addedOrder, s.overlay.added)
    requires i <= |changedOrder| && j <= |addedOrder| && (half ==> j < |addedOrder|)
    ensures Clean(BeginRequest(PartlyRestored(s, disk, changedOrder, addedOrder, i, j, half), disk, [], []), disk)
      <==> !half && forall p :: Recorded(s, p) ==> LeftTrue(s, disk, changedOrder, addedOrder, i, j, p)
  {
    PartlyRestoredEffect(s, disk, changedOrder, addedOrder, i, j);
    var t := PartlyRestored(s, disk, changedOrder, addedOrder, i, j, false);
    NothingLeftToRestore(PartlyRestored(s, disk, changedOrder, addedOrder, i, j, half), disk);
    if half {
      HalfClosed(s, addedOrder, j);
      assert addedOrder[j] in t.openDocs;
      assert addedOrder[j] !in Send(t, DidClose(addedOrder[j])).server.docs;
    } else {
      forall p | p in s.openDocs && StartsWith(p, s.root)
        ensures p in t.openDocs && !HoldsFile(t, disk, p)
          <==> Recorded(s, p) && !LeftTrue(s, disk, changedOrder, addedOrder, i, j, p)
      {
        assert !Recorded(s, p) ==> HoldsFile(s, disk, p);
        InOrders(s, changedOrder, addedOrder, i, j, p);
      }
    }
  }

  lemma InOrders(s: State, changedOrder: seq<Path>, addedOrder: seq<Path>, i: nat, j: nat, p: Path)
    requires Enumerates(changedOrder, s.overlay.changed) && Enumerates(addedOrder, s.overlay.added)
    requires i <= |changedOrder| && j <= |addedOrder|
    ensures p in changedOrder[..i] || p in addedOrder[..j] ==> Recorded(s, p)
  {
  }

  lemma HalfClosed(s: State, addedOrder: seq<Path>, j: nat)
    requires Enumerates(addedOrder, s.overlay.added) && j < |addedOrder|
    ensures addedOrder[j] !in addedOrder[..j]
    ensures addedOrder[j] in s.overlay.added
  {
  }

  /** A sync forgets the changed documents before it closes them, so one dropped after
      `n` closes leaves session and server in agreement exactly when all were sent. */
  lemma DroppedSyncAgreesExactly(s: State, changed: seq<Path>, n: nat)
    requires s.openDocs == s.server.docs.Keys
    requires n <= |TakeChanged(s.root, s.openDocs, changed).1|
    ensures var (left, toClose) := TakeChanged(s.root, s.openDocs, changed);
      var t := SendCloses(s.(openDocs := left), toClose[..n]);
      t.openDocs == t.server.docs.Keys <==> n == |toClose|
  {
    var (left, toClose) := TakeChanged(s.root, s.openDocs, changed);
    TakeChangedEffect(s.root, s.openDocs, changed);
    SendClosesEffect(s.(openDocs := left), toClose[..n]);
    var t := SendCloses(s.(openDocs := left), toClose[..n]);
    if n < |toClose| {
      assert toClose[n] in toClose && toClose[n] !in toClose[..n];
      assert toClose[n] in t.server.docs;
    } else {
      assert toClose[..n] == toClose;
    }
  }
}
