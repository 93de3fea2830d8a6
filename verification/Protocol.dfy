/** The synchronization rules of LSP 3.17 ("Text Document Synchronization") said of
    a whole trace, and their agreement with the server automaton. */
module Protocol {
  import opened Paths
  import opened Session

  predicate Opens(n: Note, p: Path) { n.DidOpen? && n.path == p }

  predicate Alters(n: Note, p: Path) { n.DidChange? && n.path == p }

  predicate Closes(n: Note, p: Path) { n.DidClose? && n.path == p }

  /** `n` gives document `p` a version. */
  predicate Versions(n: Note, p: Path) { Opens(n, p) || Alters(n, p) }

  predicate NoCloseBetween(trace: seq<Note>, i: nat, j: nat, p: Path)
    requires j <= |trace|
  {
    forall k :: i < k < j ==> !Closes(trace[k], p)
  }

  /** `p` is open just before notification `n`. */
  ghost predicate OpenAt(trace: seq<Note>, n: nat, p: Path)
    requires n <= |trace|
  {
    exists i :: 0 <= i < n && Opens(trace[i], p) && NoCloseBetween(trace, i, n, p)
  }

  /** An open is of a closed document; a change or a close is of an open one. */
  ghost predicate Alternates(trace: seq<Note>, n: nat)
    requires n < |trace|
  {
    match trace[n]
    case DidOpen(p, _, _) => !OpenAt(trace, n, p)
    case DidChange(p, _, _) => OpenAt(trace, n, p)
    case DidClose(p) => OpenAt(trace, n, p)
    case WatchedFilesChanged(_) => true
  }

  /** Notification `n` has a higher version than every one of its open period. */
  ghost predicate Increases(trace: seq<Note>, n: nat)
    requires n < |trace|
  {
    trace[n].DidChange? ==>
      forall i :: 0 <= i < n && Versions(trace[i], trace[n].path) && NoCloseBetween(trace, i, n, trace[n].path)
        ==> trace[i].version < trace[n].version
  }

  /** Opens and closes alternate, changes occur only while open, and versions
      strictly increase within each open period. */
  ghost predicate WellFormedTrace(trace: seq<Note>) {
    forall n :: 0 <= n < |trace| ==> Alternates(trace, n) && Increases(trace, n)
  }

  ghost predicate AlternatesUpTo(trace: seq<Note>, n: nat)
    requires n <= |trace|
  {
    forall m :: 0 <= m < n ==> Alternates(trace, m)
  }

  ghost predicate WellFormedUpTo(trace: seq<Note>, n: nat)
    requires n <= |trace|
  {
    forall m :: 0 <= m < n ==> Alternates(trace, m) && Increases(trace, m)
  }

  lemma OpenAtNext(trace: seq<Note>, n: nat, p: Path)
    requires n < |trace|
    ensures OpenAt(trace, n + 1, p) <==> Opens(trace[n], p) || (OpenAt(trace, n, p) && !Closes(trace[n], p))
  {
    if OpenAt(trace, n + 1, p) && !Opens(trace[n], p) {
      var i :| 0 <= i < n + 1 && Opens(trace[i], p) && NoCloseBetween(trace, i, n + 1, p);
      assert NoCloseBetween(trace, i, n, p);
    }
    if OpenAt(trace, n, p) && !Closes(trace[n], p) {
      var i :| 0 <= i < n && Opens(trace[i], p) && NoCloseBetween(trace, i, n, p);
      assert NoCloseBetween(trace, i, n + 1, p);
    }
    if Opens(trace[n], p) {
      assert NoCloseBetween(trace, n, n + 1, p);
    }
  }

  /** The server's open documents are those the trace has open. */
  lemma {:induction false} OpenDocuments(trace: seq<Note>, n: nat, p: Path)
    requires n <= |trace|
    ensures p in Run(trace[..n]).docs <==> OpenAt(trace, n, p)
  {
    if n > 0 {
      OpenDocuments(trace, n - 1, p);
      OpenAtNext(trace, n - 1, p);
      assert trace[..n][..n - 1] == trace[..n - 1];
    }
  }

  /** The version the server holds for an open document was given in this open period. */
  lemma {:induction false} VersionWasGiven(trace: seq<Note>, n: nat, p: Path) returns (i: nat)
    requires n <= |trace| && p in Run(trace[..n]).docs
    ensures i < n && Versions(trace[i], p) && NoCloseBetween(trace, i, n, p)
    ensures trace[i].version == Run(trace[..n]).docs[p].version
  {
    assert trace[..n][..n - 1] == trace[..n - 1];
    if Versions(trace[n - 1], p) {
      i := n - 1;
    } else {
      i := VersionWasGiven(trace, n - 1, p);
    }
  }

  /** In a well-formed trace it is also the highest of the period. */
  lemma {:induction false} VersionIsHighest(trace: seq<Note>, n: nat, p: Path, i: nat)
    requires n <= |trace| && WellFormedUpTo(trace, n) && p in Run(trace[..n]).docs
    requires i < n && Versions(trace[i], p) && NoCloseBetween(trace, i, n, p)
    ensures trace[i].version <= Run(trace[..n]).docs[p].version
  {
    assert trace[..n][..n - 1] == trace[..n - 1];
    OpenDocuments(trace, n - 1, p);
    if i == n - 1 {
    } else if Opens(trace[n - 1], p) {
      assert Alternates(trace, n - 1);
      StaysOpen(trace, n - 1, p, i);
    } else if Alters(trace[n - 1], p) {
      assert Increases(trace, n - 1);
      assert NoCloseBetween(trace, i, n - 1, p);
    } else {
      VersionIsHighest(trace, n - 1, p, i);
    }
  }

  /** A document versioned and not closed since is still open. */
  lemma StaysOpen(trace: seq<Note>, n: nat, p: Path, i: nat)
    requires n <= |trace| && AlternatesUpTo(trace, n)
    requires i < n && Versions(trace[i], p) && NoCloseBetween(trace, i, n, p)
    ensures OpenAt(trace, n, p)
  {
    if Alters(trace[i], p) {
      assert Alternates(trace, i);
      var j :| 0 <= j < i && Opens(trace[j], p) && NoCloseBetween(trace, j, i, p);
      assert NoCloseBetween(trace, j, n, p);
    }
  }

  lemma {:induction false} AcceptedUpTo(trace: seq<Note>, n: nat)
    requires n <= |trace|
    ensures Run(trace[..n]).ok <==> WellFormedUpTo(trace, n)
  {
    if n > 0 {
      AcceptedUpTo(trace, n - 1);
      assert trace[..n][..n - 1] == trace[..n - 1];
      var before := Run(trace[..n - 1]);
      var m := n - 1;
      assert WellFormedUpTo(trace, n) <==> WellFormedUpTo(trace, m) && Alternates(trace, m) && Increases(trace, m);
      if !trace[m].WatchedFilesChanged? {
        OpenDocuments(trace, m, trace[m].path);
      }
      if trace[m].DidChange? && before.ok && trace[m].path in before.docs {
        var p := trace[m].path;
        var k := VersionWasGiven(trace, m, p);
        forall i | 0 <= i < m && Versions(trace[i], p) && NoCloseBetween(trace, i, m, p)
          ensures trace[i].version <= before.docs[p].version
        {
          VersionIsHighest(trace, m, p, i);
        }
      }
    }
  }

  /** Notifications that fit the server's open documents alternate. */
  lemma {:induction false} FittingAlternates(trace: seq<Note>, n: nat)
    requires n <= |trace|
    ensures Fitting(trace[..n]) <==> AlternatesUpTo(trace, n)
  {
    if n > 0 {
      var m := n - 1;
      FittingAlternates(trace, m);
      assert trace[..n][..m] == trace[..m];
      assert AlternatesUpTo(trace, n) <==> AlternatesUpTo(trace, m) && Alternates(trace, m);
      if !trace[m].WatchedFilesChanged? {
        OpenDocuments(trace, m, trace[m].path);
      }
    }
  }

  /** The automaton accepts a trace exactly when the trace keeps the rules. */
  lemma AcceptedExactly(trace: seq<Note>)
    ensures Run(trace).ok <==> WellFormedTrace(trace)
  {
    AcceptedUpTo(trace, |trace|);
    assert trace[..|trace|] == trace;
  }

  /** The session's trace keeps the rules exactly until its 32-bit counter wraps. */
  lemma TraceKeepsRulesExactly(s: State)
    requires Versioned(s)
    ensures WellFormedTrace(s.trace) <==> Changes(s.trace) + 1 < VERSIONS
    ensures AlternatesUpTo(s.trace, |s.trace|)
    ensures forall p :: p in s.server.docs <==> OpenAt(s.trace, |s.trace|, p)
  {
    AcceptedExactly(s.trace);
    FittingAlternates(s.trace, |s.trace|);
    assert s.trace[..|s.trace|] == s.trace;
    forall p ensures p in s.server.docs <==> OpenAt(s.trace, |s.trace|, p) {
      OpenDocuments(s.trace, |s.trace|, p);
    }
  }

  /** The change that wraps the counter breaks them: its version is zero. */
  lemma WrappingChangeBreaksRules(s: State, p: Path, text: string)
    requires s.docVersion == 4294967295 && s.server == Run(s.trace)
    ensures SendChange(s, p, text).trace == s.trace + [DidChange(p, 0, text)]
    ensures !WellFormedTrace(SendChange(s, p, text).trace)
  {
    SendTrace(s.(docVersion := 0), DidChange(p, 0, text));
    AcceptedExactly(SendChange(s, p, text).trace);
  }
}
