/** The registry of projects: registering by hand, scanning directories, and what a
    restart finds in its file. */
module Registry {
  import opened Wrappers
  import opened Paths

  // ---------------------------------------------------------------- project ids

  predicate IsSlugChar(c: char) {
    'a' <= c <= 'z' || '0' <= c <= '9'
  }

  /** A non-empty slug of lower-case letters, digits and dashes, no dash at either end. */
  predicate ValidId(id: string) {
    && id != []
    && id[0] != '-' && id[|id| - 1] != '-'
    && forall i :: 0 <= i < |id| ==> IsSlugChar(id[i]) || id[i] == '-'
  }

  function Slugged(raw: string): (s: string)
    ensures |s| == |raw|
    ensures forall i :: 0 <= i < |s| ==> s[i] == if IsSlugChar(raw[i]) then raw[i] else '-'
  {
    seq(|raw|, i requires 0 <= i < |raw| => if IsSlugChar(raw[i]) then raw[i] else '-')
  }

  function TrimDashes(s: string): string
    decreases |s|
  {
    if s == [] then s
    else if s[0] == '-' then TrimDashes(s[1..])
    else if s[|s| - 1] == '-' then TrimDashes(s[..|s| - 1])
    else s
  }

  /** The id of a directory from its lower-cased name. */
  function DeriveId(lowered: string): string {
    var slug := TrimDashes(Slugged(lowered));
    if slug == [] then "project" else slug
  }

  predicate SlugChars(s: string) {
    forall i :: 0 <= i < |s| ==> IsSlugChar(s[i]) || s[i] == '-'
  }

  lemma {:induction false} TrimmedIsValid(s: string)
    requires SlugChars(s)
    ensures TrimDashes(s) == [] || ValidId(TrimDashes(s))
    decreases |s|
  {
    if s != [] && s[0] == '-' {
      TrimmedIsValid(s[1..]);
    } else if s != [] && s[|s| - 1] == '-' {
      TrimmedIsValid(s[..|s| - 1]);
    }
  }

  /** Whatever a directory is called, the id derived for it is valid. */
  lemma DerivedIdIsValid(lowered: string)
    ensures ValidId(DeriveId(lowered))
  {
    TrimmedIsValid(Slugged(lowered));
    assert ValidId("project");
  }

  /** Trimming takes away dashes at both ends, and nothing but dashes. */
  lemma TrimmedFrom(s: string, i: nat, j: nat) returns (a: nat, b: nat)
    requires i <= j <= |s| && TrimDashes(s[i..j]) == TrimDashes(s)
    requires forall k :: 0 <= k < i || j <= k < |s| ==> s[k] == '-'
    ensures a <= b <= |s| && TrimDashes(s) == s[a..b]
    ensures forall k :: 0 <= k < a || b <= k < |s| ==> s[k] == '-'
    ensures a < b ==> s[a] != '-' && s[b - 1] != '-'
    decreases j - i
  {
    var t := s[i..j];
    if t != [] && t[0] == '-' {
      assert t[1..] == s[i + 1..j];
      a, b := TrimmedFrom(s, i + 1, j);
    } else if t != [] && t[|t| - 1] == '-' {
      assert t[..|t| - 1] == s[i..j - 1];
      a, b := TrimmedFrom(s, i, j - 1);
    } else {
      a, b := i, j;
    }
  }

  /** An id is the directory's name with a dash for every character that may not stand in
      one, less the dashes at both ends; or `project` when nothing is left. */
  lemma DerivedIdIsTheName(lowered: string) returns (i: nat, j: nat)
    ensures i <= j <= |lowered|
    ensures forall k :: 0 <= k < i || j <= k < |lowered| ==> !IsSlugChar(lowered[k])
    ensures if i == j then DeriveId(lowered) == "project"
      else IsSlugChar(lowered[i]) && IsSlugChar(lowered[j - 1]) && |DeriveId(lowered)| == j - i
    ensures i < j ==> forall k :: i <= k < j ==>
      DeriveId(lowered)[k - i] == if IsSlugChar(lowered[k]) then lowered[k] else '-'
  {
    var s := Slugged(lowered);
    assert s[0..|s|] == s;
    i, j := TrimmedFrom(s, 0, |s|);
  }

  /** A concrete name. */
  lemma NamesBecomeIds()
    ensures DeriveId("my app!") == "my-app" && DeriveId("az09") == "az09" && DeriveId("`{/:") == "project"
  {
    assert Slugged("az09") == "az09" && Slugged("`{/:") == "----";
    assert "----"[1..] == "---" && "---"[1..] == "--" && "--"[1..] == "-" && "-"[1..] == "";
    var s := Slugged("my app!");
    assert s == "my-app-" && s[..6] == "my-app";
  }

  /** The names that are their own id are exactly the valid ids. */
  lemma ValidIdsAreFixed(name: string)
    ensures DeriveId(name) == name <==> ValidId(name)
  {
    DerivedIdIsValid(name);
    if ValidId(name) {
      assert Slugged(name) == name;
    }
  }

  // ---------------------------------------------------------------- disk and registry

  datatype Kind = File | Directory

  /** What the registry asks of the disk. `lowered` is the lower-cased last name of a
      path; a listing is in the order the scan sorts it to. */
  datatype Disk = Disk(kinds: map<Path, Kind>, canonical: map<Path, Path>, lowered: map<Path, string>,
                       languages: map<Path, seq<string>>, listings: map<Path, seq<Path>>)

  function Canonical(disk: Disk, p: Path): Path {
    if p in disk.canonical then disk.canonical[p] else p
  }

  predicate IsDirectory(disk: Disk, p: Path) {
    p in disk.kinds && disk.kinds[p].Directory?
  }

  function LanguagesOf(disk: Disk, p: Path): seq<string> {
    if p in disk.languages then disk.languages[p] else []
  }

  function LoweredName(disk: Disk, p: Path): string {
    if p in disk.lowered then disk.lowered[p] else []
  }

  datatype Project = Project(id: string, root: Path, languages: seq<string>)

  datatype ProjectEntry = ProjectEntry(root: Path, languages: seq<string>)

  datatype Error =
    | PathNotFound(path: Path)
    | NotADirectory(path: Path)
    | InvalidProjectId(id: string)
    | ProjectAlreadyExists(id: string)
    | NoLanguageDetected(path: Path)
    | ProjectNotFound(id: string)
    | NotSaved
    | ConfigRead
    | Io

  type Projects = map<string, Project>

  /** The registry file: not there, a registry, text that is none, or not readable. */
  datatype Stored = Missing | Entries(entries: map<string, ProjectEntry>) | Malformed | Unreadable

  /** The projects in memory, the registry file, and how often it was written to. */
  datatype State = State(projects: Projects, file: Stored, saves: nat)

  /** How a write of the file goes: it succeeds, never begins, or fails once the file was
      truncated and leaves whatever was written of it. */
  datatype Write = Written | NotBegun | Torn(left: Stored)

  /** How each attempt to write the file goes. */
  type Writes = nat -> Write

  function FromProjects(projects: Projects): map<string, ProjectEntry> {
    map id | id in projects :: ProjectEntry(projects[id].root, projects[id].languages)
  }

  /** What a start finds in the file. */
  function Loaded(file: Stored): Result<Projects, Error> {
    match file
    case Missing => Ok(map[])
    case Entries(entries) => Ok(IntoProjects(entries))
    case Malformed => Err(ConfigRead)
    case Unreadable => Err(Io)
  }

  function IntoProjects(file: map<string, ProjectEntry>): Projects {
    map id | id in file :: Project(id, file[id].root, file[id].languages)
  }

  function Saved(s: State, writes: Writes): (State, bool) {
    match writes(s.saves)
    case Written => (State(s.projects, Entries(FromProjects(s.projects)), s.saves + 1), true)
    case NotBegun => (s.(saves := s.saves + 1), false)
    case Torn(left) => (State(s.projects, left, s.saves + 1), false)
  }

  /** What `register` refuses, or else the project it makes. */
  function Proposed(projects: Projects, disk: Disk, id: Option<string>, path: Path): Result<Project, Error> {
    if path !in disk.kinds then Err(PathNotFound(path))
    else if disk.kinds[path].File? then Err(NotADirectory(path))
    else
      var root := Canonical(disk, path);
      var name := if id.Some? then id.value else DeriveId(LoweredName(disk, root));
      if !ValidId(name) then Err(InvalidProjectId(name))
      else if name in projects then Err(ProjectAlreadyExists(name))
      else if LanguagesOf(disk, root) == [] then Err(NoLanguageDetected(root))
      else Ok(Project(name, root, LanguagesOf(disk, root)))
  }

  function Registered(s: State, disk: Disk, writes: Writes, id: Option<string>, path: Path)
    : (State, Result<Project, Error>)
  {
    match Proposed(s.projects, disk, id, path)
    case Err(e) => (s, Err(e))
    case Ok(project) =>
      var (saved, ok) := Saved(s.(projects := s.projects[project.id := project]), writes);
      (saved, if ok then Ok(project) else Err(NotSaved))
  }

  predicate HasRoot(projects: Projects, root: Path) {
    exists id :: id in projects && projects[id].root == root
  }

  /** One directory of a scan. */
  function Scanned(s: State, disk: Disk, writes: Writes, dir: Path): (State, seq<string>) {
    if HasRoot(s.projects, Canonical(disk, dir)) then (s, [])
    else
      var (next, result) := Registered(s, disk, writes, None, dir);
      (next, if result.Ok? then [result.value.id] else [])
  }

  function ScannedAll(s: State, disk: Disk, writes: Writes, dirs: seq<Path>): (State, seq<string>) {
    if dirs == [] then (s, [])
    else
      var (before, added) := ScannedAll(s, disk, writes, dirs[..|dirs| - 1]);
      var (after, more) := Scanned(before, disk, writes, dirs[|dirs| - 1]);
      (after, added + more)
  }

  function Directories(disk: Disk, paths: seq<Path>): seq<Path> {
    if paths == [] then []
    else
      var last := paths[|paths| - 1];
      Directories(disk, paths[..|paths| - 1]) + if IsDirectory(disk, last) then [last] else []
  }

  /** The directories a scan of `roots` visits; roots that cannot be read have none. */
  function Visited(disk: Disk, roots: seq<Path>): seq<Path> {
    if roots == [] then []
    else
      var last := roots[|roots| - 1];
      Visited(disk, roots[..|roots| - 1])
      + if last in disk.listings then Directories(disk, disk.listings[last]) else []
  }

  lemma ScannedOneMore(s: State, disk: Disk, writes: Writes, before: seq<Path>, dirs: seq<Path>, j: nat)
    requires j < |dirs|
    ensures ScannedAll(s, disk, writes, before + dirs[..j + 1]) ==
      var (t, added) := ScannedAll(s, disk, writes, before + dirs[..j]);
      var (after, more) := Scanned(t, disk, writes, dirs[j]);
      (after, added + more)
  {
    var all := before + dirs[..j + 1];
    assert all[..|all| - 1] == before + dirs[..j] && all[|all| - 1] == dirs[j];
  }

  function AutoRegistered(s: State, disk: Disk, writes: Writes, roots: seq<Path>): (State, seq<string>) {
    ScannedAll(s, disk, writes, Visited(disk, roots))
  }

  function Unregistered(s: State, writes: Writes, id: string): (State, Result<Project, Error>) {
    if id !in s.projects then (s, Err(ProjectNotFound(id)))
    else
      var (saved, ok) := Saved(s.(projects := s.projects - {id}), writes);
      (saved, if ok then Ok(s.projects[id]) else Err(NotSaved))
  }

  // ---------------------------------------------------------------- the registry as code

  class ProjectRegistry {
    var projects: Projects
    var file: Stored
    var saves: nat

    function Value(): State
      reads this
    {
      State(projects, file, saves)
    }

    constructor (projects: Projects, file: Stored)
      ensures Value() == State(projects, file, 0)
    {
      this.projects, this.file, saves := projects, file, 0;
    }

    /** Start from what the file holds; a missing file is an empty one, and one that is
        not a registry or cannot be read is an error. */
    static method Load(file: Stored) returns (r: Result<ProjectRegistry, Error>)
      ensures (r.Ok? <==> file.Missing? || file.Entries?) && (r.Ok? <==> Loaded(file).Ok?)
      ensures r.Ok? ==> fresh(r.value) && r.value.Value() == State(Loaded(file).value, file, 0)
      ensures r.Err? ==> Loaded(file) == Err(r.error)
      ensures (file.Malformed? <==> r == Err(ConfigRead)) && (file.Unreadable? <==> r == Err(Io))
    {
      match file {
        case Missing =>
          var registry := new ProjectRegistry(map[], file);
          r := Ok(registry);
        case Entries(entries) =>
          var registry := new ProjectRegistry(IntoProjects(entries), file);
          r := Ok(registry);
        case Malformed => r := Err(ConfigRead);
        case Unreadable => r := Err(Io);
      }
    }

    method Save(writes: Writes) returns (ok: bool)
      modifies this
      ensures (Value(), ok) == Saved(old(Value()), writes)
    {
      var write := writes(saves);
      saves := saves + 1;
      ok := write.Written?;
      match write {
        case Written => file := Entries(FromProjects(projects));
        case NotBegun =>
        case Torn(left) => file := left;
      }
    }

    method Register(id: Option<string>, path: Path, disk: Disk, writes: Writes) returns (r: Result<Project, Error>)
      modifies this
      ensures (Value(), r) == Registered(old(Value()), disk, writes, id, path)
    {
      if path !in disk.kinds {
        return Err(PathNotFound(path));
      }
      if disk.kinds[path].File? {
        return Err(NotADirectory(path));
      }
      var root := Canonical(disk, path);
      var name := if id.Some? then id.value else DeriveId(LoweredName(disk, root));
      if !ValidId(name) {
        return Err(InvalidProjectId(name));
      }
      if name in projects {
        return Err(ProjectAlreadyExists(name));
      }
      var languages := LanguagesOf(disk, root);
      if languages == [] {
        return Err(NoLanguageDetected(root));
      }
      var project := Project(name, root, languages);
      projects := projects[name := project];
      var saved := Save(writes);
      r := if saved then Ok(project) else Err(NotSaved);
    }

    method AutoRegister(roots: seq<Path>, disk: Disk, writes: Writes) returns (added: seq<string>)
      modifies this
      ensures (Value(), added) == AutoRegistered(old(Value()), disk, writes, roots)
    {
      added := [];
      for i := 0 to |roots|
        invariant (Value(), added) == ScannedAll(old(Value()), disk, writes, Visited(disk, roots[..i]))
      {
        assert roots[..i + 1][..i] == roots[..i];
        ghost var before := Visited(disk, roots[..i]);
        assert before + [] == before;
        if roots[i] !in disk.listings {
          continue;
        }
        var dirs := Directories(disk, disk.listings[roots[i]]);
        assert before + dirs[..0] == before;
        for j := 0 to |dirs|
          invariant (Value(), added) == ScannedAll(old(Value()), disk, writes, before + dirs[..j])
        {
          ScannedOneMore(old(Value()), disk, writes, before, dirs, j);
          assert added + [] == added;
          if HasRoot(projects, Canonical(disk, dirs[j])) {
            continue;
          }
          var r := Register(None, dirs[j], disk, writes);
          if r.Ok? {
            added := added + [r.value.id];
          }
        }
        assert before + dirs[..|dirs|] == before + dirs;
      }
      assert roots[..|roots|] == roots;
    }

    method Unregister(id: string, writes: Writes) returns (r: Result<Project, Error>)
      modifies this
      ensures (Value(), r) == Unregistered(old(Value()), writes, id)
    {
      if id !in projects {
        return Err(ProjectNotFound(id));
      }
      var project := projects[id];
      projects := projects - {id};
      var saved := Save(writes);
      r := if saved then Ok(project) else Err(NotSaved);
    }
  }

  // ---------------------------------------------------------------- saving and loading

  /** Every project is stored under its own id, which is valid. */
  predicate WellKeyed(projects: Projects) {
    forall id :: id in projects ==> projects[id].id == id && ValidId(id)
  }

  /** Writing the registry to its file and reading it again is the identity exactly
      when every project is stored under its own id. */
  lemma StoredReadsBackExactly(projects: Projects)
    ensures IntoProjects(FromProjects(projects)) == projects
      <==> forall id :: id in projects ==> projects[id].id == id
  {
    var back := IntoProjects(FromProjects(projects));
    assert back.Keys == projects.Keys;
    forall id | id in projects
      ensures back[id] == projects[id] <==> projects[id].id == id
    {
    }
  }

  lemma WellKeyedLoads(projects: Projects)
    requires WellKeyed(projects)
    ensures Loaded(Entries(FromProjects(projects))) == Ok(projects)
  {
    StoredReadsBackExactly(projects);
  }

  /** Registering and removing keep every project under its own valid id, and after
      a success the file read back is the registry. */
  lemma RegisterKeepsKeys(s: State, disk: Disk, writes: Writes, id: Option<string>, path: Path)
    requires WellKeyed(s.projects)
    ensures var (t, r) := Registered(s, disk, writes, id, path);
      && WellKeyed(t.projects)
      && (r.Ok? ==> Loaded(t.file) == Ok(t.projects) && t.projects == s.projects[r.value.id := r.value])
      && (forall k :: k in s.projects ==> k in t.projects && t.projects[k] == s.projects[k])
  {
    var (t, r) := Registered(s, disk, writes, id, path);
    if r.Ok? {
      WellKeyedLoads(t.projects);
    }
  }

  /** What a registration makes, and what it refuses for which reason: a path that is not
      there, one that is no directory, a name that is no id, a name that is taken, a tree
      without a known language, in this order. */
  lemma RegisteredExactly(s: State, disk: Disk, id: Option<string>, path: Path)
    ensures var root := if path in disk.canonical then disk.canonical[path] else path;
      var name := match id case Some(given) => given
        case None => DeriveId(if root in disk.lowered then disk.lowered[root] else "");
      var languages := if root in disk.languages then disk.languages[root] else [];
      var r := Proposed(s.projects, disk, id, path);
      && (r.Ok? <==> path in disk.kinds && disk.kinds[path].Directory? && ValidId(name) && name !in s.projects
                     && languages != [])
      && (r.Ok? ==> r.value == Project(name, root, languages))
      && (r == Err(PathNotFound(path)) <==> path !in disk.kinds)
      && (r == Err(NotADirectory(path)) <==> path in disk.kinds && disk.kinds[path].File?)
      && (r.Err? && r.error.InvalidProjectId? ==> r.error.id == name && !ValidId(name))
      && (r.Err? && r.error.ProjectAlreadyExists? ==> r.error.id == name && ValidId(name) && name in s.projects)
      && (r.Err? && r.error.NoLanguageDetected? ==>
        r.error.path == root && languages == [] && ValidId(name) && name !in s.projects)
  {
  }

  lemma UnregisterKeepsKeys(s: State, writes: Writes, id: string)
    requires WellKeyed(s.projects)
    ensures var (t, r) := Unregistered(s, writes, id);
      && WellKeyed(t.projects)
      && (r.Ok? ==> Loaded(t.file) == Ok(t.projects) && t.projects == s.projects - {id})
      && (r.Ok? ==> id in s.projects && r.value == s.projects[id])
      && (id in s.projects ==> id !in t.projects)
      && (r == Err(ProjectNotFound(id)) <==> id !in s.projects)
  {
    var (t, r) := Unregistered(s, writes, id);
    if r.Ok? {
      WellKeyedLoads(t.projects);
    }
  }

  /** A registration that returns an error changes nothing exactly when it was refused
      before the save: otherwise the project stays in memory, and a file whose write
      never began does not have it. */
  lemma RefusalChangesNothingExactly(s: State, disk: Disk, writes: Writes, id: Option<string>, path: Path)
    requires WellKeyed(s.projects) && Loaded(s.file) == Ok(s.projects)
    requires Registered(s, disk, writes, id, path).1.Err?
    ensures var t := Registered(s, disk, writes, id, path).0;
      && (t == s <==> Proposed(s.projects, disk, id, path).Err?)
      && (t.projects == s.projects <==> Proposed(s.projects, disk, id, path).Err?)
      && (writes(s.saves).NotBegun? ==>
        (Loaded(t.file) == Ok(t.projects) <==> Proposed(s.projects, disk, id, path).Err?))
  {
    var proposed := Proposed(s.projects, disk, id, path);
    if proposed.Ok? {
      assert proposed.value.id in s.projects[proposed.value.id := proposed.value];
      assert proposed.value.id !in s.projects;
    }
  }

  /** A removal that returns an error changes nothing exactly when the project is unknown:
      otherwise it is gone from memory, and a file whose write never began still has it. */
  lemma FailedRemovalExactly(s: State, writes: Writes, id: string)
    requires WellKeyed(s.projects) && Loaded(s.file) == Ok(s.projects)
    requires Unregistered(s, writes, id).1.Err?
    ensures var t := Unregistered(s, writes, id).0;
      && (t == s <==> id !in s.projects)
      && (t.projects == s.projects <==> id !in s.projects)
      && (writes(s.saves).NotBegun? ==>
        && Loaded(t.file) == Ok(s.projects)
        && (Loaded(t.file) == Ok(t.projects) <==> id !in s.projects))
  {
    if id in s.projects {
      assert id !in s.projects - {id};
    }
  }

  /** A concrete removal whose save fails: refused, gone from memory, back after a restart. */
  lemma FailedSaveRevivesProject()
    ensures var projects: Projects := map["app" := Project("app", APP, ["rust"])];
      var (t, r) := Unregistered(State(projects, Entries(FromProjects(projects)), 0), n => NotBegun, "app");
      r == Err(NotSaved) && t.projects == map[] && Loaded(t.file) == Ok(projects)
  {
    var projects: Projects := map["app" := Project("app", APP, ["rust"])];
    assert projects - {"app"} == map[];
    StoredReadsBackExactly(projects);
  }

  /** A disk with one directory that is a project. */
  const APP: Path := [ROOT, "app"]
  const ONE_PROJECT := Disk(map[APP := Directory], map[], map[APP := "app"], map[APP := ["rust"]], map[])

  lemma AppIsProposed(projects: Projects, id: string)
    requires ValidId(id) && id !in projects
    ensures Proposed(projects, ONE_PROJECT, Some(id), APP) == Ok(Project(id, APP, ["rust"]))
  {
  }

  /** A concrete registration whose save fails: refused, yet listed until the restart. */
  lemma FailedSaveKeepsProject()
    ensures var (t, r) := Registered(State(map[], Missing, 0), ONE_PROJECT, n => NotBegun, Some("app"), APP);
      r == Err(NotSaved) && "app" in t.projects && Loaded(t.file) == Ok(map[])
  {
    AppIsProposed(map[], "app");
  }

  // ---------------------------------------------------------------- scanning

  /** The scan has nothing to do for `dir`: its tree is registered, its id is taken,
      or it is no project. */
  predicate Done(projects: Projects, disk: Disk, dir: Path) {
    || HasRoot(projects, Canonical(disk, dir))
    || Proposed(projects, disk, None, dir).Err?
  }

  predicate Extends(a: Projects, b: Projects) {
    forall id :: id in a ==> id in b && b[id] == a[id]
  }

  lemma DoneStays(a: Projects, b: Projects, disk: Disk, dir: Path)
    requires Done(a, disk, dir) && Extends(a, b)
    ensures Done(b, disk, dir)
  {
    if HasRoot(a, Canonical(disk, dir)) {
      var id :| id in a && a[id].root == Canonical(disk, dir);
      assert id in b && b[id].root == Canonical(disk, dir);
    }
  }

  lemma ScanFinishes(s: State, disk: Disk, writes: Writes, dir: Path)
    ensures Done(Scanned(s, disk, writes, dir).0.projects, disk, dir)
    ensures Extends(s.projects, Scanned(s, disk, writes, dir).0.projects)
    ensures Done(s.projects, disk, dir) ==> Scanned(s, disk, writes, dir) == (s, [])
  {
    var t := Scanned(s, disk, writes, dir).0;
    var proposed := Proposed(s.projects, disk, None, dir);
    if !HasRoot(s.projects, Canonical(disk, dir)) && proposed.Ok? {
      var id := proposed.value.id;
      assert id in t.projects && t.projects[id].root == Canonical(disk, dir);
    }
  }

  lemma {:induction false} ScansFinish(s: State, disk: Disk, writes: Writes, dirs: seq<Path>)
    ensures Extends(s.projects, ScannedAll(s, disk, writes, dirs).0.projects)
    ensures forall i :: 0 <= i < |dirs| ==> Done(ScannedAll(s, disk, writes, dirs).0.projects, disk, dirs[i])
  {
    if dirs != [] {
      var rest, last := dirs[..|dirs| - 1], dirs[|dirs| - 1];
      ScansFinish(s, disk, writes, rest);
      var before := ScannedAll(s, disk, writes, rest).0;
      var after := Scanned(before, disk, writes, last).0;
      ScanFinishes(before, disk, writes, last);
      forall i | 0 <= i < |dirs| ensures Done(after.projects, disk, dirs[i]) {
        if i < |rest| {
          assert Done(before.projects, disk, rest[i]);
          DoneStays(before.projects, after.projects, disk, rest[i]);
        }
      }
    }
  }

  lemma {:induction false} NothingLeft(s: State, disk: Disk, writes: Writes, dirs: seq<Path>)
    requires forall i :: 0 <= i < |dirs| ==> Done(s.projects, disk, dirs[i])
    ensures ScannedAll(s, disk, writes, dirs) == (s, [])
  {
    if dirs != [] {
      NothingLeft(s, disk, writes, dirs[..|dirs| - 1]);
      var none: seq<string> := [];
      assert none + none == none;
      ScanFinishes(s, disk, writes, dirs[|dirs| - 1]);
    }
  }

  /** A second scan of an unchanged disk adds nothing, writes nothing and changes
      nothing, whichever writes failed the first time. */
  lemma SecondScanDoesNothing(s: State, disk: Disk, first: Writes, second: Writes, roots: seq<Path>)
    ensures var after := AutoRegistered(s, disk, first, roots).0;
      AutoRegistered(after, disk, second, roots) == (after, [])
  {
    var dirs := Visited(disk, roots);
    ScansFinish(s, disk, first, dirs);
    NothingLeft(AutoRegistered(s, disk, first, roots).0, disk, second, dirs);
  }

  /** Two projects of `now` on one root were both there before. */
  ghost predicate SharedRootsAreOld(before: Projects, now: Projects) {
    forall a, b :: a in now && b in now && a != b && now[a].root == now[b].root ==> a in before && b in before
  }

  lemma NewRootIsNotShared(old0: Projects, now: Projects, project: Project)
    requires SharedRootsAreOld(old0, now) && !HasRoot(now, project.root) && project.id !in now
    ensures SharedRootsAreOld(old0, now[project.id := project])
  {
    var t := now[project.id := project];
    forall a, b | a in t && b in t && a != b && t[a].root == t[b].root ensures a in old0 && b in old0 {
      assert a in now && now[a].root == project.root ==> HasRoot(now, project.root);
      assert b in now && now[b].root == project.root ==> HasRoot(now, project.root);
    }
  }

  lemma ScanAddsNewRoot(s: State, disk: Disk, writes: Writes, dir: Path, old0: Projects)
    requires SharedRootsAreOld(old0, s.projects)
    ensures SharedRootsAreOld(old0, Scanned(s, disk, writes, dir).0.projects)
    ensures WellKeyed(s.projects) ==> WellKeyed(Scanned(s, disk, writes, dir).0.projects)
  {
    var proposed := Proposed(s.projects, disk, None, dir);
    if !HasRoot(s.projects, Canonical(disk, dir)) && proposed.Ok? {
      NewRootIsNotShared(old0, s.projects, proposed.value);
    }
  }

  lemma {:induction false} ScansAddNewRoots(s: State, disk: Disk, writes: Writes, dirs: seq<Path>)
    ensures SharedRootsAreOld(s.projects, ScannedAll(s, disk, writes, dirs).0.projects)
    ensures WellKeyed(s.projects) ==> WellKeyed(ScannedAll(s, disk, writes, dirs).0.projects)
  {
    if dirs != [] {
      ScansAddNewRoots(s, disk, writes, dirs[..|dirs| - 1]);
      ScanAddsNewRoot(ScannedAll(s, disk, writes, dirs[..|dirs| - 1]).0, disk, writes, dirs[|dirs| - 1], s.projects);
    }
  }

  /** A scan never adds a second project on one root, keeps every project under its own
      valid id, and leaves the projects already registered as they were. */
  lemma ScanNeverSharesARoot(s: State, disk: Disk, writes: Writes, roots: seq<Path>)
    requires WellKeyed(s.projects)
    ensures var t := AutoRegistered(s, disk, writes, roots).0;
      && SharedRootsAreOld(s.projects, t.projects)
      && WellKeyed(t.projects)
      && Extends(s.projects, t.projects)
  {
    ScansAddNewRoots(s, disk, writes, Visited(disk, roots));
    ScansFinish(s, disk, writes, Visited(disk, roots));
  }

  ghost predicate DistinctRoots(projects: Projects) {
    forall a, b :: a in projects && b in projects && projects[a].root == projects[b].root ==> a == b
  }

  /** Registering by hand keeps the roots distinct exactly when it adds nothing or the
      root is new: a second id for a registered tree is accepted. */
  lemma RegisterSharesRootExactly(s: State, disk: Disk, writes: Writes, id: Option<string>, path: Path)
    requires DistinctRoots(s.projects)
    ensures DistinctRoots(Registered(s, disk, writes, id, path).0.projects)
      <==> Proposed(s.projects, disk, id, path).Err? || !HasRoot(s.projects, Canonical(disk, path))
  {
    var t := Registered(s, disk, writes, id, path).0.projects;
    var proposed := Proposed(s.projects, disk, id, path);
    if proposed.Ok? {
      var root := Canonical(disk, path);
      assert proposed.value.id in t && t[proposed.value.id].root == root;
      if HasRoot(s.projects, root) {
        var other :| other in s.projects && s.projects[other].root == root;
        assert other in t && t[other].root == root && other != proposed.value.id;
      } else {
        forall a, b | a in t && b in t && t[a].root == t[b].root ensures a == b {
          assert a in s.projects && s.projects[a].root == root ==> HasRoot(s.projects, root);
          assert b in s.projects && s.projects[b].root == root ==> HasRoot(s.projects, root);
        }
      }
    }
  }

  /** A concrete second registration of one directory, under another id. */
  lemma OneTreeTwice()
    ensures var first := Registered(State(map[], Missing, 0), ONE_PROJECT, n => Written, Some("a"), APP).0;
      var second := Registered(first, ONE_PROJECT, n => Written, Some("b"), APP);
      second.1.Ok? && !DistinctRoots(second.0.projects)
  {
    AppIsProposed(map[], "a");
    var a, b := Project("a", APP, ["rust"]), Project("b", APP, ["rust"]);
    AppIsProposed(map["a" := a], "b");
    var both := map["a" := a, "b" := b];
    assert "a" in both && "b" in both && both["a"].root == both["b"].root;
  }

  predicate Added(before: Projects, now: Projects, id: string) {
    id in now && id !in before
  }

  ghost predicate Reported(before: Projects, now: Projects, added: seq<string>) {
    forall id :: id in added ==> Added(before, now, id)
  }

  ghost predicate AllReported(before: Projects, now: Projects, added: seq<string>) {
    forall id :: Added(before, now, id) ==> id in added
  }

  lemma ReportsCompose(a: Projects, b: Projects, c: Projects, x: seq<string>, y: seq<string>)
    requires Extends(a, b) && Extends(b, c)
    ensures Reported(a, b, x) && Reported(b, c, y) ==> Reported(a, c, x + y)
    ensures AllReported(a, b, x) && AllReported(b, c, y) ==> AllReported(a, c, x + y)
  {
    forall id ensures Added(a, c, id) <==> Added(a, b, id) || Added(b, c, id) {
    }
  }

  lemma ScanReportsAdded(s: State, disk: Disk, writes: Writes, dir: Path)
    ensures var (t, added) := Scanned(s, disk, writes, dir);
      && Reported(s.projects, t.projects, added)
      && ((forall n :: writes(n).Written?) ==> AllReported(s.projects, t.projects, added))
  {
  }

  lemma {:induction false} DirectoriesExactly(disk: Disk, paths: seq<Path>, p: Path)
    ensures p in Directories(disk, paths) <==> p in paths && p in disk.kinds && disk.kinds[p].Directory?
  {
    if paths != [] {
      DirectoriesExactly(disk, paths[..|paths| - 1], p);
    }
  }

  /** `p` is a directory listed directly below one of the roots that can be read. */
  predicate Child(disk: Disk, roots: seq<Path>, p: Path) {
    && p in disk.kinds && disk.kinds[p].Directory?
    && exists i :: 0 <= i < |roots| && roots[i] in disk.listings && p in disk.listings[roots[i]]
  }

  lemma {:induction false} VisitedExactly(disk: Disk, roots: seq<Path>, p: Path)
    ensures p in Visited(disk, roots) <==> Child(disk, roots, p)
  {
    if roots != [] {
      var n := |roots| - 1;
      VisitedExactly(disk, roots[..n], p);
      if roots[n] in disk.listings {
        DirectoriesExactly(disk, disk.listings[roots[n]], p);
      }
      if Child(disk, roots, p) {
        var i :| 0 <= i < |roots| && roots[i] in disk.listings && p in disk.listings[roots[i]];
        assert i < n ==> roots[..n][i] == roots[i];
      }
      if Child(disk, roots[..n], p) {
        var i :| 0 <= i < n && roots[..n][i] in disk.listings && p in disk.listings[roots[..n][i]];
        assert roots[i] == roots[..n][i];
      }
    }
  }

  /** The ids are returned in the order in which their directories were visited. */
  lemma {:induction false} ScansReportInOrder(s: State, disk: Disk, writes: Writes, dirs: seq<Path>)
    returns (indexes: seq<nat>)
    ensures var (t, added) := ScannedAll(s, disk, writes, dirs);
      |indexes| == |added| && forall k :: 0 <= k < |added| ==>
        indexes[k] < |dirs| && added[k] in t.projects && t.projects[added[k]].root == Canonical(disk, dirs[indexes[k]])
    ensures forall j, k :: 0 <= j < k < |indexes| ==> indexes[j] < indexes[k]
  {
    if dirs == [] {
      indexes := [];
    } else {
      var n := |dirs| - 1;
      indexes := ScansReportInOrder(s, disk, writes, dirs[..n]);
      var before := ScannedAll(s, disk, writes, dirs[..n]).0;
      ScanFinishes(before, disk, writes, dirs[n]);
      if Scanned(before, disk, writes, dirs[n]).1 != [] {
        indexes := indexes + [n];
      }
    }
  }

  lemma {:induction false} ScansAddVisited(s: State, disk: Disk, writes: Writes, dirs: seq<Path>, id: string)
    requires id in ScannedAll(s, disk, writes, dirs).0.projects && id !in s.projects
    ensures var root := ScannedAll(s, disk, writes, dirs).0.projects[id].root;
      exists i :: 0 <= i < |dirs| && root == Canonical(disk, dirs[i])
  {
    var n := |dirs| - 1;
    var before := ScannedAll(s, disk, writes, dirs[..n]).0;
    if id in before.projects {
      ScansAddVisited(s, disk, writes, dirs[..n], id);
      var i :| 0 <= i < n && before.projects[id].root == Canonical(disk, dirs[..n][i]);
      assert dirs[i] == dirs[..n][i];
      ScanFinishes(before, disk, writes, dirs[n]);
    } else {
      assert ScannedAll(s, disk, writes, dirs).0.projects[id].root == Canonical(disk, dirs[n]);
    }
  }

  /** After a scan every directory directly below a readable root is registered under its
      tree, or cannot be; and whatever the scan added is such a directory. */
  lemma ScanCoversTheRoots(s: State, disk: Disk, writes: Writes, roots: seq<Path>)
    ensures var t := AutoRegistered(s, disk, writes, roots).0;
      && (forall p :: Child(disk, roots, p) ==> Done(t.projects, disk, p))
      && (forall id :: id in t.projects && id !in s.projects ==>
        exists p :: Child(disk, roots, p) && t.projects[id].root == Canonical(disk, p))
  {
    var dirs := Visited(disk, roots);
    var t := AutoRegistered(s, disk, writes, roots).0;
    ScansFinish(s, disk, writes, dirs);
    forall p | Child(disk, roots, p) ensures Done(t.projects, disk, p) {
      VisitedExactly(disk, roots, p);
      var i :| 0 <= i < |dirs| && dirs[i] == p;
      assert Done(t.projects, disk, dirs[i]);
    }
    forall id | id in t.projects && id !in s.projects
      ensures exists p :: Child(disk, roots, p) && t.projects[id].root == Canonical(disk, p)
    {
      ScansAddVisited(s, disk, writes, dirs, id);
      var i :| 0 <= i < |dirs| && t.projects[id].root == Canonical(disk, dirs[i]);
      VisitedExactly(disk, roots, dirs[i]);
    }
  }

  /** The scan returns ids it added, and all of them unless a write failed. */
  lemma {:induction false} ScansReportAdded(s: State, disk: Disk, writes: Writes, dirs: seq<Path>)
    ensures var (t, added) := ScannedAll(s, disk, writes, dirs);
      && Reported(s.projects, t.projects, added)
      && ((forall n :: writes(n).Written?) ==> AllReported(s.projects, t.projects, added))
  {
    if dirs != [] {
      var rest, last := dirs[..|dirs| - 1], dirs[|dirs| - 1];
      ScansReportAdded(s, disk, writes, rest);
      ScansFinish(s, disk, writes, rest);
      var (before, added) := ScannedAll(s, disk, writes, rest);
      var (after, more) := Scanned(before, disk, writes, last);
      ScanReportsAdded(before, disk, writes, last);
      ScanFinishes(before, disk, writes, last);
      ReportsCompose(s.projects, before.projects, after.projects, added, more);
    }
  }
}
