/** Rewriting path prefixes between a caller's paths and the paths seen here. */
module PathMap {
  import opened Wrappers
  import opened Paths

  /** A rewrite of one prefix into another. */
  type Entry = (Path, Path)

  predicate Side(p: Path) {
    p != [] && WellFormed(p)
  }

  /** Both sides of every entry name something. */
  predicate Valid(entries: seq<Entry>) {
    forall i :: 0 <= i < |entries| ==> Side(entries[i].0) && Side(entries[i].1)
  }

  predicate DistinctHosts(entries: seq<Entry>) {
    forall i, j :: 0 <= i < |entries| && 0 <= j < |entries| && i != j ==> entries[i].0 != entries[j].0
  }

  predicate DistinctContainers(entries: seq<Entry>) {
    forall i, j :: 0 <= i < |entries| && 0 <= j < |entries| && i != j ==> entries[i].1 != entries[j].1
  }

  predicate Matches(entries: seq<Entry>, p: Path, i: nat)
    requires i < |entries|
  {
    StartsWith(p, entries[i].0)
  }

  /** The entry with the longest prefix of `p`, the first of several as long. */
  function Best(entries: seq<Entry>, p: Path): (best: Option<nat>)
    ensures best.Some? ==> best.value < |entries|
  {
    if entries == [] then None
    else
      var n := |entries| - 1;
      var best := Best(entries[..n], p);
      if Matches(entries, p, n) && (best.None? || |entries[n].0| > |entries[best.value].0|) then Some(n) else best
  }

  function Rewritten(entry: Entry, p: Path): Path
    requires StartsWith(p, entry.0)
  {
    Join(entry.1, p[|entry.0|..])
  }

  /** Entry `i` beats every other match of `p`. */
  predicate Wins(entries: seq<Entry>, p: Path, i: nat)
    requires i < |entries|
  {
    && Matches(entries, p, i)
    && forall j :: 0 <= j < |entries| && j != i && Matches(entries, p, j) ==>
      |entries[j].0| < |entries[i].0| || (|entries[j].0| == |entries[i].0| && i < j)
  }

  lemma {:induction false} BestWins(entries: seq<Entry>, p: Path)
    ensures Best(entries, p).Some? ==> Wins(entries, p, Best(entries, p).value)
    ensures Best(entries, p).None? ==> forall i :: 0 <= i < |entries| ==> !Matches(entries, p, i)
  {
    if entries != [] {
      var init := entries[..|entries| - 1];
      BestWins(init, p);
      assert forall i :: 0 <= i < |init| ==> Matches(init, p, i) == Matches(entries, p, i);
    }
  }

  lemma WinnerIsBest(entries: seq<Entry>, p: Path, i: nat)
    requires i < |entries| && Wins(entries, p, i)
    ensures Best(entries, p) == Some(i)
  {
    BestWins(entries, p);
  }

  function Swapped(entries: seq<Entry>): (r: seq<Entry>)
    ensures |r| == |entries| && forall i :: 0 <= i < |r| ==> r[i] == (entries[i].1, entries[i].0)
  {
    seq(|entries|, i requires 0 <= i < |entries| => (entries[i].1, entries[i].0))
  }

  function Map(entries: seq<Entry>, p: Path): Path {
    var best := Best(entries, p);
    if best.None? then p
    else
      BestWins(entries, p);
      Rewritten(entries[best.value], p)
  }

  function Reverse(entries: seq<Entry>, p: Path): Option<Path> {
    var best := Best(Swapped(entries), p);
    if best.None? then None
    else
      BestWins(Swapped(entries), p);
      Some(Rewritten(Swapped(entries)[best.value], p))
  }

  /** The rewrite kept so far: how deep its prefix is, and what it makes of `p`. */
  predicate Kept(entries: seq<Entry>, p: Path, best: Option<(nat, Path)>) {
    match Best(entries, p)
    case None => best.None?
    case Some(i) =>
      Matches(entries, p, i) && best == Some((|entries[i].0|, Rewritten(entries[i], p)))
  }

  method MapLoop(entries: seq<Entry>, path: Path) returns (r: Path)
    ensures r == Map(entries, path)
  {
    var best: Option<(nat, Path)> := None;
    for n := 0 to |entries|
      invariant Kept(entries[..n], path, best)
    {
      assert entries[..n + 1][..n] == entries[..n];
      BestWins(entries[..n], path);
      var (host, container) := entries[n];
      var rest := StripPrefix(path, host);
      if rest.Some? && (best.None? || |host| > best.value.0) {
        best := Some((|host|, Join(container, rest.value)));
      }
    }
    assert entries[..|entries|] == entries;
    r := if best.Some? then best.value.1 else path;
  }

  method ReverseLoop(entries: seq<Entry>, path: Path) returns (r: Option<Path>)
    ensures r == Reverse(entries, path)
  {
    ghost var swapped := Swapped(entries);
    var best: Option<(nat, Path)> := None;
    for n := 0 to |entries|
      invariant Kept(swapped[..n], path, best)
    {
      assert swapped[..n + 1][..n] == swapped[..n];
      BestWins(swapped[..n], path);
      var (host, container) := entries[n];
      var rest := StripPrefix(path, container);
      if rest.Some? && (best.None? || |container| > best.value.0) {
        best := Some((|container|, Join(host, rest.value)));
      }
    }
    assert swapped[..|entries|] == swapped;
    r := if best.Some? then Some(best.value.1) else None;
  }

  // ---------------------------------------------------------------- the longest prefix

  lemma SameLengthPrefixes(p: Path, a: Path, b: Path)
    requires StartsWith(p, a) && StartsWith(p, b) && |a| == |b|
    ensures a == b
  {
  }

  /** With distinct hosts one entry is strictly the longest match, and the rewrite is
      its own; without a match the path stays as it is. */
  lemma MapUsesTheLongestHost(entries: seq<Entry>, p: Path)
    requires DistinctHosts(entries)
    ensures Best(entries, p).None? ==>
      Map(entries, p) == p && forall i :: 0 <= i < |entries| ==> !Matches(entries, p, i)
    ensures Best(entries, p).Some? ==> var i := Best(entries, p).value;
      && Matches(entries, p, i)
      && Map(entries, p) == Rewritten(entries[i], p)
      && forall j :: 0 <= j < |entries| && j != i && Matches(entries, p, j) ==> |entries[j].0| < |entries[i].0|
  {
    BestWins(entries, p);
    if Best(entries, p).Some? {
      var i := Best(entries, p).value;
      forall j | 0 <= j < |entries| && j != i && Matches(entries, p, j) ensures |entries[j].0| < |entries[i].0| {
        assert entries[i].0 != entries[j].0;
        if |entries[j].0| == |entries[i].0| {
          SameLengthPrefixes(p, entries[i].0, entries[j].0);
        }
      }
    }
  }

  /** A path below a host, and below no host as long, becomes the same path below that
      host's container; one below no host stays as it is. */
  lemma MapSwapsThePrefix(entries: seq<Entry>, p: Path)
    requires Valid(entries) && WellFormed(p)
    ensures forall i :: 0 <= i < |entries| && Wins(entries, p, i) ==>
      Map(entries, p) == entries[i].1 + p[|entries[i].0|..]
    ensures (forall i :: 0 <= i < |entries| ==> !StartsWith(p, entries[i].0)) ==> Map(entries, p) == p
  {
    forall i | 0 <= i < |entries| && Wins(entries, p, i) ensures Map(entries, p) == entries[i].1 + p[|entries[i].0|..] {
      WinnerIsBest(entries, p, i);
      RestHasNoRoot(p, entries[i].0);
    }
    BestWins(entries, p);
    assert forall i :: 0 <= i < |entries| && Matches(entries, p, i) ==> StartsWith(p, entries[i].0);
  }

  /** On the way back the longest container decides, and a path below none is of no host. */
  lemma ReverseSwapsThePrefix(entries: seq<Entry>, p: Path)
    requires Valid(entries) && WellFormed(p)
    ensures forall i :: 0 <= i < |entries| && Wins(Swapped(entries), p, i) ==>
      Reverse(entries, p) == Some(entries[i].0 + p[|entries[i].1|..])
    ensures Reverse(entries, p) == None <==> forall i :: 0 <= i < |entries| ==> !StartsWith(p, entries[i].1)
  {
    var swapped := Swapped(entries);
    forall i | 0 <= i < |entries| && Wins(swapped, p, i) ensures Reverse(entries, p) == Some(entries[i].0 + p[|entries[i].1|..]) {
      WinnerIsBest(swapped, p, i);
      RestHasNoRoot(p, entries[i].1);
    }
    BestWins(swapped, p);
    forall i | 0 <= i < |entries| ensures Matches(swapped, p, i) <==> StartsWith(p, entries[i].1) {
    }
  }

  lemma MatchMoves(a: seq<Entry>, b: seq<Entry>, p: Path)
    requires forall e :: e in a ==> e in b
    ensures Best(a, p).Some? ==> Best(b, p).Some?
  {
    BestWins(a, p);
    BestWins(b, p);
    if Best(a, p).Some? {
      var e := a[Best(a, p).value];
      assert e in b;
      var j :| 0 <= j < |b| && b[j] == e;
      assert Matches(b, p, j);
    }
  }

  /** The order the entries are given in does not matter. */
  lemma MapIgnoresOrder(a: seq<Entry>, b: seq<Entry>, p: Path)
    requires DistinctHosts(a) && DistinctHosts(b)
    requires forall e :: e in a <==> e in b
    ensures Map(a, p) == Map(b, p)
  {
    MapUsesTheLongestHost(a, p);
    MapUsesTheLongestHost(b, p);
    MatchMoves(a, b, p);
    MatchMoves(b, a, p);
    if Best(a, p).Some? {
      var e := a[Best(a, p).value];
      assert e in b;
      var j :| 0 <= j < |b| && b[j] == e;
      assert Matches(b, p, j);
      var f := b[Best(b, p).value];
      assert f in a;
      var i :| 0 <= i < |a| && a[i] == f;
      assert Matches(a, p, i);
    }
  }

  // ---------------------------------------------------------------- the way back

  /** Under its container no other container hides entry `i` for the rest `rest`. */
  predicate Unhidden(entries: seq<Entry>, i: nat, rest: Path)
    requires i < |entries|
  {
    forall j :: 0 <= j < |entries| && j != i && StartsWith(entries[i].1 + rest, entries[j].1) ==>
      |entries[j].1| < |entries[i].1| || (|entries[j].1| == |entries[i].1| && i < j)
  }

  lemma RestHasNoRoot(p: Path, prefix: Path)
    requires WellFormed(p) && prefix != [] && StartsWith(p, prefix)
    ensures p == prefix + p[|prefix|..]
    ensures forall q :: Join(q, p[|prefix|..]) == q + p[|prefix|..]
  {
    var rest := p[|prefix|..];
    assert rest != [] ==> rest[0] == p[|prefix|];
  }

  /** For one path: mapped and reversed it is itself exactly when no other container
      takes the mapped path. */
  lemma ReverseUndoesMapAt(entries: seq<Entry>, p: Path, i: nat)
    requires Valid(entries) && DistinctHosts(entries) && WellFormed(p)
    requires Best(entries, p) == Some(i)
    ensures StartsWith(p, entries[i].0)
    ensures Reverse(entries, Map(entries, p)) == Some(p) <==> Unhidden(entries, i, p[|entries[i].0|..])
  {
    MapUsesTheLongestHost(entries, p);
    assert Side(entries[i].0) && Side(entries[i].1);
    RestHasNoRoot(p, entries[i].0);
    var rest := p[|entries[i].0|..];
    var q := entries[i].1 + rest;
    assert Map(entries, p) == q;
    var swapped := Swapped(entries);
    BestWins(swapped, q);
    assert Matches(swapped, q, i);
    var j := Best(swapped, q).value;
    if Unhidden(entries, i, rest) {
      assert Wins(swapped, q, i);
      WinnerIsBest(swapped, q, i);
      assert q[|entries[i].1|..] == rest;
    } else {
      assert !Wins(swapped, q, i) && j != i;
      OtherContainerMisleads(entries, p, i, j, rest);
    }
  }

  lemma OtherContainerMisleads(entries: seq<Entry>, p: Path, i: nat, j: nat, rest: Path)
    requires Valid(entries) && DistinctHosts(entries) && WellFormed(p)
    requires i < |entries| && j < |entries| && i != j && Best(entries, p) == Some(i)
    requires p == entries[i].0 + rest
    requires StartsWith(entries[i].1 + rest, entries[j].1) && |entries[j].1| >= |entries[i].1|
    ensures Rewritten((entries[j].1, entries[j].0), entries[i].1 + rest) != p
  {
    var host, container := entries[j].0, entries[j].1;
    var q := entries[i].1 + rest;
    var deeper := |container| - |entries[i].1|;
    var back := q[|container|..];
    assert Side(entries[i].0);
    assert back == rest[deeper..];
    assert rest[deeper..] == p[|entries[i].0| + deeper..];
    assert back != [] ==> back[0] == p[|entries[i].0| + deeper];
    assert Join(host, back) == host + back;
    MapUsesTheLongestHost(entries, p);
    assert Matches(entries, p, j) ==> |host| < |entries[i].0|;
    assert (host + back)[..|host|] == host;
    assert |host + back| == |p| ==> |host| == |entries[i].0| + deeper;
  }

  /** Where one container lies below another, some host lies below the other's host at
      most as far down, so paths that would be led astray never use it. */
  predicate Guarded(entries: seq<Entry>, i: nat, j: nat)
    requires i < |entries| && j < |entries|
  {
    StartsWith(entries[j].1, entries[i].1) && |entries[j].1| > |entries[i].1| ==>
      var below := entries[i].0 + entries[j].1[|entries[i].1|..];
      exists k :: 0 <= k < |entries| && Matches(entries, below, k) && |entries[k].0| > |entries[i].0|
  }

  predicate Reversible(entries: seq<Entry>) {
    && DistinctContainers(entries)
    && (forall i, j :: 0 <= i < |entries| && 0 <= j < |entries| ==> Guarded(entries, i, j))
  }

  ghost predicate ReverseUndoesMap(entries: seq<Entry>) {
    forall p :: WellFormed(p) && Best(entries, p).Some? ==> Reverse(entries, Map(entries, p)) == Some(p)
  }

  /** A host with nothing below it in `below` is the best match there. */
  lemma BestAt(entries: seq<Entry>, i: nat, below: Path)
    requires Valid(entries) && DistinctHosts(entries)
    requires i < |entries| && StartsWith(below, entries[i].0)
    requires forall k :: 0 <= k < |entries| && Matches(entries, below, k) ==> |entries[k].0| <= |entries[i].0|
    ensures Best(entries, below) == Some(i)
  {
    MapUsesTheLongestHost(entries, below);
    assert Matches(entries, below, i);
  }

  /** A container that hides entry `i` on a path it maps has no guard. */
  lemma HiddenIsUnguarded(entries: seq<Entry>, p: Path, i: nat, j: nat)
    requires DistinctHosts(entries) && Best(entries, p) == Some(i) && StartsWith(p, entries[i].0)
    requires i < |entries| && j < |entries| && |entries[j].1| > |entries[i].1|
    requires StartsWith(entries[i].1 + p[|entries[i].0|..], entries[j].1)
    ensures !Guarded(entries, i, j)
  {
    var rest := p[|entries[i].0|..];
    var q := entries[i].1 + rest;
    assert entries[i].1 == q[..|entries[i].1|] == entries[j].1[..|entries[i].1|];
    var down := entries[j].1[|entries[i].1|..];
    assert down <= rest;
    var below := entries[i].0 + down;
    assert below <= entries[i].0 + rest == p;
    MapUsesTheLongestHost(entries, p);
    forall k | 0 <= k < |entries| && Matches(entries, below, k) ensures |entries[k].0| <= |entries[i].0| {
      assert Matches(entries, p, k);
    }
  }

  lemma ReversibleMeansUnhidden(entries: seq<Entry>, p: Path, i: nat)
    requires DistinctHosts(entries) && Reversible(entries)
    requires Best(entries, p) == Some(i) && StartsWith(p, entries[i].0)
    ensures Unhidden(entries, i, p[|entries[i].0|..])
  {
    var q := entries[i].1 + p[|entries[i].0|..];
    forall j | 0 <= j < |entries| && j != i && StartsWith(q, entries[j].1)
      ensures |entries[j].1| < |entries[i].1|
    {
      assert q[..|entries[i].1|] == entries[i].1 != entries[j].1;
      assert Guarded(entries, i, j);
      if |entries[j].1| > |entries[i].1| {
        HiddenIsUnguarded(entries, p, i, j);
      }
    }
  }

  lemma UndoneMeansReversible(entries: seq<Entry>)
    requires Valid(entries) && DistinctHosts(entries) && ReverseUndoesMap(entries)
    ensures Reversible(entries)
  {
    forall i, j | 0 <= i < j < |entries| ensures entries[i].1 != entries[j].1 {
      EqualContainers(entries, i, j);
    }
    forall i, j | 0 <= i < |entries| && 0 <= j < |entries| ensures Guarded(entries, i, j) {
      if StartsWith(entries[j].1, entries[i].1) && |entries[j].1| > |entries[i].1| {
        DeeperIsGuarded(entries, i, j);
      }
    }
  }

  lemma DeeperIsGuarded(entries: seq<Entry>, i: nat, j: nat)
    requires Valid(entries) && DistinctHosts(entries) && ReverseUndoesMap(entries)
    requires i < |entries| && j < |entries|
    requires StartsWith(entries[j].1, entries[i].1) && |entries[j].1| > |entries[i].1|
    ensures Guarded(entries, i, j)
  {
    assert Side(entries[i].0) && Side(entries[i].1) && Side(entries[j].1);
    var down := entries[j].1[|entries[i].1|..];
    var below := entries[i].0 + down;
    assert entries[j].1 == entries[i].1 + down && below[|entries[i].0|..] == down;
    assert !Unhidden(entries, i, down);
    DownIsWellFormed(entries[i].0, entries[i].1, entries[j].1);
    assert Best(entries, below) != Some(i) by {
      if Best(entries, below) == Some(i) {
        ReverseUndoesMapAt(entries, below, i);
      }
    }
    if forall k :: 0 <= k < |entries| && Matches(entries, below, k) ==> |entries[k].0| <= |entries[i].0| {
      BestAt(entries, i, below);
    }
  }

  lemma DownIsWellFormed(host: Path, container: Path, deeper: Path)
    requires Side(host) && Side(container) && Side(deeper) && StartsWith(deeper, container)
    ensures WellFormed(host + deeper[|container|..])
  {
    var p := host + deeper[|container|..];
    forall i | 1 <= i < |p| ensures p[i] != ROOT {
      assert i >= |host| ==> p[i] == deeper[|container| + i - |host|];
    }
  }

  /** Of two entries with one container the later cannot be reversed. */
  lemma EqualContainers(entries: seq<Entry>, i: nat, j: nat)
    requires Valid(entries) && DistinctHosts(entries) && ReverseUndoesMap(entries)
    requires i < j < |entries|
    ensures entries[i].1 != entries[j].1
  {
    var p := entries[j].0;
    assert Side(p);
    BestAt(entries, j, p);
    ReverseUndoesMapAt(entries, p, j);
    assert p[|p|..] == [];
    assert Unhidden(entries, j, []);
    assert entries[j].1 + [] == entries[j].1;
  }

  /** Every mapped path is found again exactly when the containers are distinct and no
      container below another leads a path astray. */
  lemma ReverseUndoesMapExactly(entries: seq<Entry>)
    requires Valid(entries) && DistinctHosts(entries)
    ensures ReverseUndoesMap(entries) <==> Reversible(entries)
  {
    if Reversible(entries) {
      forall p | WellFormed(p) && Best(entries, p).Some? ensures Reverse(entries, Map(entries, p)) == Some(p) {
        var i := Best(entries, p).value;
        MapUsesTheLongestHost(entries, p);
        ReversibleMeansUnhidden(entries, p, i);
        ReverseUndoesMapAt(entries, p, i);
      }
    }
    if ReverseUndoesMap(entries) {
      UndoneMeansReversible(entries);
    }
  }

  /** Two concrete mounts, one container inside the other: the path of the outer host
      comes back as one of the inner. */
  lemma NestedContainerMisleads()
    ensures var entries := [([ROOT, "a"], [ROOT, "w"]), ([ROOT, "b"], [ROOT, "w", "x"])];
      var p := [ROOT, "a", "x"];
      Valid(entries) && DistinctHosts(entries) && Best(entries, p) == Some(0)
      && Reverse(entries, Map(entries, p)) != Some(p)
  {
    var entries := [([ROOT, "a"], [ROOT, "w"]), ([ROOT, "b"], [ROOT, "w", "x"])];
    var p := [ROOT, "a", "x"];
    assert "a"[0] != "b"[0] && "a"[0] != ROOT[0] && "b"[0] != ROOT[0] && "w"[0] != ROOT[0] && "x"[0] != ROOT[0];
    assert Matches(entries, p, 0) by {
      assert p[..2] == [ROOT, "a"];
    }
    assert !Matches(entries, p, 1) by {
      assert p[1] != entries[1].0[1];
    }
    WinnerIsBest(entries, p, 0);
    assert p[2..] == ["x"] && entries[0].1 + ["x"] == entries[1].1;
    assert !Unhidden(entries, 0, ["x"]);
    ReverseUndoesMapAt(entries, p, 0);
  }

  /** In particular when no container lies at or below another. */
  lemma SeparateContainersReverse(entries: seq<Entry>, p: Path)
    requires Valid(entries) && DistinctHosts(entries) && WellFormed(p) && Best(entries, p).Some?
    requires forall i, j :: 0 <= i < |entries| && 0 <= j < |entries| && i != j ==>
      !StartsWith(entries[j].1, entries[i].1)
    ensures Reverse(entries, Map(entries, p)) == Some(p)
  {
    forall i, j | 0 <= i < |entries| && 0 <= j < |entries| && i != j ensures entries[i].1 != entries[j].1 {
      assert !StartsWith(entries[j].1, entries[i].1);
    }
    ReverseUndoesMapExactly(entries);
  }
}
