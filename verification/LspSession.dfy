/** The session object: its fields change in place as it notifies the server. */
module LspSessions {
  import opened Wrappers
  import opened Paths
  import opened Applier
  import opened Session

  class LspSession {
    const root: Path
    const langs: seq<(string, string)>
    var openDocs: set<Path>
    var indexed: bool
    var changed: set<Path>
    var added: set<Path>
    var overlayDirty: bool
    var overlayRoot: Option<Path>
    var docVersion: nat
    /** Every notification sent, and the server they have driven. */
    var trace: seq<Note>
    ghost var server: Server

    ghost function Value(): State
      reads this
    {
      State(root, langs, openDocs, indexed, Overlay(changed, added), overlayDirty, overlayRoot,
        docVersion, trace, server)
    }

    constructor (root: Path, langs: seq<(string, string)>)
      ensures Value() == NewState(root, langs)
    {
      this.root, this.langs := root, langs;
      openDocs, indexed, changed, added := {}, false, {}, {};
      overlayDirty, overlayRoot, docVersion := false, None, 1;
      trace, server := [], FRESH_SERVER;
    }

    method Notify(n: Note)
      modifies this`trace, this`server
      ensures Value() == Send(old(Value()), n)
    {
      trace := trace + [n];
      server := Deliver(server, n);
    }

    method DidChangeFull(p: Path, text: string)
      modifies this`trace, this`server, this`docVersion
      ensures Value() == SendChange(old(Value()), p, text)
    {
      docVersion := (docVersion + 1) % VERSIONS;
      Notify(DidChange(p, docVersion, text));
    }

    /** Open a document unless it is open already. */
    method EnsureOpen(disk: Disk, path: Path) returns (ok: bool)
      modifies this
      ensures Value() == Session.EnsureOpen(old(Value()), disk, path)
      ensures ok <==> CanOpen(old(Value()), disk, path)
    {
      var abs := Resolve(path, root);
      if abs in openDocs {
        return true;
      }
      if abs !in disk {
        return false;
      }
      Notify(DidOpen(abs, 1, disk[abs]));
      openDocs := openDocs + {abs};
      return true;
    }

    /** Open several documents, stopping at the first that cannot be read, if any. */
    method OpenAndReconcile(disk: Disk, paths: seq<Path>) returns (failed: Option<Path>)
      modifies this
      ensures (Value(), failed.None?) == OpenAll(old(Value()), disk, paths)
      ensures failed.Some? ==> failed.value in paths && Resolve(failed.value, root) !in disk
    {
      for i := 0 to |paths|
        invariant OpenAll(old(Value()), disk, paths[..i]) == (Value(), true)
      {
        assert paths[..i + 1][..i] == paths[..i];
        var one := EnsureOpen(disk, paths[i]);
        if !one {
          OpenAllStops(old(Value()), disk, paths, i + 1);
          return Some(paths[i]);
        }
      }
      assert paths[..|paths|] == paths;
      return None;
    }

    /** Open the project's sources, once per session even if it fails. */
    method EnsureIndexed(disk: Disk, sources: seq<Path>) returns (ok: bool)
      modifies this
      ensures old(indexed) ==> ok && Value() == old(Value())
      ensures !old(indexed) ==> (Value(), ok) == OpenAll(old(Value()).(indexed := true), disk, sources)
    {
      if indexed {
        return true;
      }
      indexed := true;
      var failed := OpenAndReconcile(disk, sources);
      ok := failed.None?;
    }

    /** Take the request lock's holder into a session free of leaked overlays. */
    method BeginRequest(disk: Disk) returns (ghost changedOrder: seq<Path>, ghost addedOrder: seq<Path>)
      modifies this
      ensures Enumerates(changedOrder, old(changed)) && Enumerates(addedOrder, old(added))
      ensures Value() == Session.BeginRequest(old(Value()), disk, changedOrder, addedOrder)
      ensures Idle(old(Value()), disk) ==> Clean(Value(), disk)
    {
      if overlayDirty {
        changedOrder, addedOrder := RestoreOverlay(disk);
      } else {
        changedOrder, addedOrder := SomeOrder(changed), SomeOrder(added);
      }
    }

    /** Present one changed file, if it is a readable source: as a change when its document
        is open already, else by opening it. */
    method OverlayFile(disk: Disk, workspace: Path, rel: Path)
      modifies this
      ensures Value() == OverlayOne(old(Value()), disk, workspace, rel)
    {
      if !Shown(langs, disk, workspace, rel) {
        return;
      }
      var content, base := disk[Join(workspace, rel)], Join(root, rel);
      if base in openDocs {
        DidChangeFull(base, content);
        changed := changed + {base};
      } else {
        Notify(DidOpen(base, 1, content));
        openDocs := openDocs + {base};
        added := added + {base};
      }
      overlayDirty := true;
      overlayRoot := Some(workspace);
    }

    /** Present the working copy's changed files on top of the base index. */
    method OverlayWorkspace(disk: Disk, workspace: Path, delta: seq<Path>)
      modifies this
      ensures Value() == Session.OverlayWorkspace(old(Value()), disk, workspace, delta)
      ensures workspace == root ==> Value() == old(Value())
      ensures Clean(old(Value()), disk) && AllRelative(delta) && workspace != root ==>
        Overlaid(Value(), disk, workspace, delta)
    {
      if workspace == root {
        return;
      }
      for i := 0 to |delta|
        invariant Value() == OverlayEach(old(Value()), disk, workspace, delta[..i])
      {
        assert delta[..i + 1][..i] == delta[..i];
        OverlayFile(disk, workspace, delta[i]);
      }
      assert delta[..|delta|] == delta;
      if Clean(old(Value()), disk) && AllRelative(delta) {
        OverlayEachKeeps(old(Value()), disk, workspace, delta);
      }
    }

    /** Change documents back to their base text, in whatever order the set is walked. */
    method ChangeBackAll(disk: Disk, paths: set<Path>) returns (ghost order: seq<Path>)
      modifies this`trace, this`server, this`docVersion
      ensures Enumerates(order, paths)
      ensures Value() == ChangeBack(old(Value()), disk, order)
    {
      order := [];
      var left := paths;
      while left != {}
        invariant left <= paths && Enumerates(order, paths - left)
        invariant Value() == ChangeBack(old(Value()), disk, order)
      {
        var p :| p in left;
        EnumeratesNext(order, paths, left, p);
        assert (order + [p])[..|order|] == order;
        if p in disk {
          DidChangeFull(p, disk[p]);
        }
        left, order := left - {p}, order + [p];
      }
      assert paths - left == paths;
    }

    /** Close documents, in whatever order the set is walked. */
    method CloseAll(paths: set<Path>) returns (ghost order: seq<Path>)
      modifies this`trace, this`server, this`openDocs
      ensures Enumerates(order, paths)
      ensures Value() == CloseEach(old(Value()), order)
    {
      order := [];
      var left := paths;
      while left != {}
        invariant left <= paths && Enumerates(order, paths - left)
        invariant Value() == CloseEach(old(Value()), order)
      {
        var p :| p in left;
        EnumeratesNext(order, paths, left, p);
        assert (order + [p])[..|order|] == order;
        Notify(DidClose(p));
        openDocs := openDocs - {p};
        left, order := left - {p}, order + [p];
      }
      assert paths - left == paths;
    }

    /** Undo the overlay and clear its record. */
    method RestoreOverlay(disk: Disk) returns (ghost changedOrder: seq<Path>, ghost addedOrder: seq<Path>)
      modifies this
      ensures Enumerates(changedOrder, old(changed)) && Enumerates(addedOrder, old(added))
      ensures Value() == Restore(old(Value()), disk, changedOrder, addedOrder)
      ensures Tracked(old(Value()), disk) ==> (Clean(Value(), disk) <==> Restorable(old(Value()), disk))
    {
      overlayRoot := None;
      var toChange, toClose := changed, added;
      changed, added := {}, {};
      changedOrder := ChangeBackAll(disk, toChange);
      addedOrder := CloseAll(toClose);
      overlayDirty := false;
      if Tracked(old(Value()), disk) {
        RestoreCleansExactly(old(Value()), disk, changedOrder, addedOrder);
      }
    }

    /** Close the changed files the server holds open, and announce the change. */
    method SyncChanged(paths: seq<Path>)
      modifies this
      ensures Value() == Session.SyncChanged(old(Value()), paths)
    {
      var toClose: seq<Path> := [];
      var watch: seq<Path> := [];
      for i := 0 to |paths|
        invariant (openDocs, toClose) == TakeChanged(root, old(openDocs), paths[..i])
        invariant watch == ResolveEach(root, paths[..i])
        invariant Value() == old(Value()).(openDocs := openDocs)
      {
        assert paths[..i + 1][..i] == paths[..i];
        var abs := Resolve(paths[i], root);
        if abs in openDocs {
          openDocs := openDocs - {abs};
          toClose := toClose + [abs];
        }
        watch := watch + [abs];
      }
      assert paths[..|paths|] == paths;
      ghost var taken := Value();
      for i := 0 to |toClose|
        invariant Value() == SendCloses(taken, toClose[..i])
      {
        assert toClose[..i + 1][..i] == toClose[..i];
        Notify(DidClose(toClose[i]));
      }
      assert toClose[..|toClose|] == toClose;
      Notify(WatchedFilesChanged(watch));
    }
  }

  lemma {:induction false} OpenAllStops(s: State, disk: Disk, paths: seq<Path>, n: nat)
    requires n <= |paths| && !OpenAll(s, disk, paths[..n]).1
    ensures OpenAll(s, disk, paths) == OpenAll(s, disk, paths[..n])
    decreases |paths| - n
  {
    if n == |paths| {
      assert paths[..n] == paths;
    } else {
      assert paths[..n + 1][..n] == paths[..n];
      OpenAllStops(s, disk, paths, n + 1);
    }
  }

  lemma EnumeratesNext(order: seq<Path>, paths: set<Path>, left: set<Path>, p: Path)
    requires left <= paths && p in left && Enumerates(order, paths - left)
    ensures Enumerates(order + [p], paths - (left - {p}))
  {
    assert forall i :: 0 <= i < |order| ==> order[i] in paths - left;
  }

  ghost function SomeOrder(paths: set<Path>): (order: seq<Path>)
    ensures Enumerates(order, paths)
  {
    if paths == {} then []
    else
      var p :| p in paths;
      SomeOrder(paths - {p}) + [p]
  }
}
