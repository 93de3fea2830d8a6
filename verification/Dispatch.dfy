/** Which backends serve a request, and with which of their operations. */
module Dispatch {
  import opened Wrappers
  import opened Merge
  import opened Search

  type Language = string

  /** A provider by its identity. */
  type Provider = nat

  type Providers = map<Language, Provider>

  datatype Kind = Edit | Query

  datatype TargetKind = Position | Selection | File | Project

  /** A registered operation and the provider that contributed it. */
  datatype Operation = Operation(id: string, languages: seq<Language>, kind: Kind, target: TargetKind,
                                 contributor: Provider)

  datatype Route = Unspecified | ToLanguage(language: Language) | Unplaceable(handle: string)

  datatype Error =
    | UnknownOperation(id: string)
    | NotServed(id: string, language: Language)
    | CannotPlace(id: string, handle: string)
    | NoProvider(language: Language)
    | RunFailed

  // ---------------------------------------------------------------- the catalog

  predicate Serves(op: Operation, id: string, language: Language) {
    op.id == id && language in op.languages
  }

  /** Operation `i` is the first that serves the language under the id. */
  predicate IsFirst(ops: seq<Operation>, id: string, language: Language, i: nat)
    requires i < |ops|
  {
    Serves(ops[i], id, language) && forall j :: 0 <= j < i ==> !Serves(ops[j], id, language)
  }

  /** The first operation registered under `id` for `language`. */
  function Resolve(ops: seq<Operation>, id: string, language: Language): (r: Option<Operation>)
    ensures r.Some? ==> exists i :: 0 <= i < |ops| && ops[i] == r.value && IsFirst(ops, id, language, i)
    ensures r.Some? ==> r.value in ops && Serves(r.value, id, language)
    ensures r.None? ==> forall op :: op in ops ==> !Serves(op, id, language)
  {
    if ops == [] then None
    else if Serves(ops[0], id, language) then Some(ops[0])
    else Resolve(ops[1..], id, language)
  }

  function LanguagesFor(ops: seq<Operation>, id: string, languages: seq<Language>): (r: seq<Language>)
    ensures forall l :: l in r <==> l in languages && Resolve(ops, id, l).Some?
  {
    if languages == [] then []
    else
      var rest := LanguagesFor(ops, id, languages[1..]);
      if Resolve(ops, id, languages[0]).Some? then [languages[0]] + rest else rest
  }

  /** They come in the order given: list after list, and language by language. */
  lemma {:induction false} LanguagesForJoins(ops: seq<Operation>, id: string, a: seq<Language>, b: seq<Language>)
    ensures LanguagesFor(ops, id, a + b) == LanguagesFor(ops, id, a) + LanguagesFor(ops, id, b)
    ensures |a| == 1 ==> LanguagesFor(ops, id, a) == if Offers(ops, id, a[0]) then a else []
  {
    if a == [] {
      assert a + b == b;
    } else {
      assert (a + b)[1..] == a[1..] + b;
      LanguagesForJoins(ops, id, a[1..], b);
    }
  }

  /** Some operation is registered under `id` for the language. */
  predicate Offers(ops: seq<Operation>, id: string, language: Language) {
    exists op :: op in ops && Serves(op, id, language)
  }

  /** Language `i` of the list is the first that offers the operation. */
  predicate FirstOffering(ops: seq<Operation>, id: string, languages: seq<Language>, i: nat)
    requires i < |languages|
  {
    Offers(ops, id, languages[i]) && forall j :: 0 <= j < i ==> !Offers(ops, id, languages[j])
  }

  lemma {:induction false} FirstCandidate(ops: seq<Operation>, id: string, languages: seq<Language>) returns (i: nat)
    requires LanguagesFor(ops, id, languages) != []
    ensures i < |languages| && FirstOffering(ops, id, languages, i)
    ensures LanguagesFor(ops, id, languages)[0] == languages[i]
  {
    if Resolve(ops, id, languages[0]).Some? {
      i := 0;
    } else {
      i := FirstCandidate(ops, id, languages[1..]);
      assert forall j :: 0 < j < |languages| ==> languages[j] == languages[1..][j - 1];
      i := i + 1;
    }
  }

  // ---------------------------------------------------------------- choosing languages

  predicate SharesProvider(providers: Providers, a: Language, b: Language) {
    a in providers && b in providers && providers[a] == providers[b]
  }

  function FirstSharing(candidates: seq<Language>, providers: Providers, language: Language): Option<Language> {
    if candidates == [] then None
    else if SharesProvider(providers, candidates[0], language) then Some(candidates[0])
    else FirstSharing(candidates[1..], providers, language)
  }

  function ServingCandidate(candidates: seq<Language>, providers: Providers, language: Language): Option<Language> {
    if language in candidates then Some(language) else FirstSharing(candidates, providers, language)
  }

  /** The language a request names: that of its file, else the one its route gives. */
  function NamedLanguage(fileLanguage: Option<Language>, route: Route): Option<Language> {
    if fileLanguage.Some? then fileLanguage
    else if route.ToLanguage? then Some(route.language)
    else None
  }

  function DispatchLanguages(candidates: seq<Language>, providers: Providers, described: Operation,
                             fileLanguage: Option<Language>, route: Route): Result<seq<Language>, Error>
  {
    var named := NamedLanguage(fileLanguage, route);
    if named.Some? then
      match ServingCandidate(candidates, providers, named.value)
      case None => Err(NotServed(described.id, named.value))
      case Some(candidate) => Ok([candidate])
    else if route.Unplaceable? then Err(CannotPlace(described.id, route.handle))
    else if described.target == Project && described.kind == Query then Ok(candidates)
    else Ok(if candidates == [] then [] else [candidates[0]])
  }

  /** Candidate `i` is the first that shares the language's provider. */
  predicate FirstSharer(candidates: seq<Language>, providers: Providers, language: Language, i: nat)
    requires i < |candidates|
  {
    && SharesProvider(providers, candidates[i], language)
    && forall j :: 0 <= j < i ==> !SharesProvider(providers, candidates[j], language)
  }

  lemma {:induction false} FirstSharingFinds(candidates: seq<Language>, providers: Providers, language: Language)
    ensures match FirstSharing(candidates, providers, language)
      case Some(c) =>
        exists i :: 0 <= i < |candidates| && candidates[i] == c && FirstSharer(candidates, providers, language, i)
      case None => forall c :: c in candidates ==> !SharesProvider(providers, c, language)
  {
    if candidates != [] {
      var rest := candidates[1..];
      FirstSharingFinds(rest, providers, language);
      if SharesProvider(providers, candidates[0], language) {
        assert FirstSharer(candidates, providers, language, 0);
      } else if FirstSharing(rest, providers, language).Some? {
        var i :| 0 <= i < |rest| && rest[i] == FirstSharing(rest, providers, language).value
          && FirstSharer(rest, providers, language, i);
        assert forall j :: 0 < j < |candidates| ==> candidates[j] == rest[j - 1];
        assert FirstSharer(candidates, providers, language, i + 1);
      }
    }
  }

  /** A named language is served exactly when it is a candidate or shares its provider
      with one: by itself if it can, else by the first candidate of that very provider. */
  lemma ServedExactly(candidates: seq<Language>, providers: Providers, language: Language)
    ensures var r := ServingCandidate(candidates, providers, language);
      && (r.Some? <==> Served(candidates, providers, language))
      && (r.Some? ==> Stands(candidates, providers, language, r.value))
  {
    FirstSharingFinds(candidates, providers, language);
  }

  predicate Served(candidates: seq<Language>, providers: Providers, language: Language) {
    language in candidates || exists c :: c in candidates && SharesProvider(providers, c, language)
  }

  /** `c` is the candidate that serves the language. */
  predicate Stands(candidates: seq<Language>, providers: Providers, language: Language, c: Language) {
    if language in candidates then c == language
    else exists i :: 0 <= i < |candidates| && candidates[i] == c && FirstSharer(candidates, providers, language, i)
  }

  /** The request names the language: its file is of it, or it names no file and its route
      leads to it. */
  predicate Names(fileLanguage: Option<Language>, route: Route, language: Language) {
    fileLanguage == Some(language) || (fileLanguage == None && route == ToLanguage(language))
  }

  predicate IsProjectQuery(op: Operation) {
    op.target == Project && op.kind == Query
  }

  /** Where a request goes, whatever it names: to the candidate that serves the language it
      names, refused when none does; refused when it names none and carries a handle that
      cannot be placed; else to every candidate for a project-wide query, and to the first
      for anything else. */
  lemma DispatchedExactly(candidates: seq<Language>, providers: Providers, described: Operation,
                          fileLanguage: Option<Language>, route: Route)
    requires candidates != []
    ensures var r := DispatchLanguages(candidates, providers, described, fileLanguage, route);
      && (forall l :: Names(fileLanguage, route, l) ==>
        if Served(candidates, providers, l) then
          r.Ok? && |r.value| == 1 && Stands(candidates, providers, l, r.value[0])
        else r == Err(NotServed(described.id, l)))
      && (fileLanguage == None && route.Unplaceable? ==> r == Err(CannotPlace(described.id, route.handle)))
      && (fileLanguage == None && route.Unspecified? ==>
        r == Ok(if IsProjectQuery(described) then candidates else [candidates[0]]))
      && (r.Ok? ==> r.value != [] && forall l :: l in r.value ==> l in candidates)
      && (r.Ok? && |r.value| != 1 ==> IsProjectQuery(described))
  {
    var named := NamedLanguage(fileLanguage, route);
    if named.Some? {
      ServedExactly(candidates, providers, named.value);
    }
  }

  // ---------------------------------------------------------------- asking

  /** One run of an operation on a provider's session. */
  datatype Ask = Ask(language: Language, provider: Provider, operation: Operation)

  datatype Ran = Answered(value: Json) | Edited | Failed

  /** How running went, given everything asked so far and this ask last. */
  type Runs = seq<Ask> -> Ran

  datatype Ending = Going | EditFinished | Stopped(error: Error)

  datatype Progress = Progress(asked: seq<Ask>, queries: seq<Json>, ending: Ending)

  const NOTHING_YET := Progress([], [], Going)

  predicate WasAsked(asked: seq<Ask>, provider: Provider) {
    exists i :: 0 <= i < |asked| && asked[i].provider == provider
  }

  function Visit(p: Progress, ops: seq<Operation>, providers: Providers, id: string, runs: Runs, l: Language): Progress {
    if !p.ending.Going? then p
    else if l !in providers then p.(ending := Stopped(NoProvider(l)))
    else if WasAsked(p.asked, providers[l]) then p
    else
      match Resolve(ops, id, l)
      case None => p.(ending := Stopped(UnknownOperation(id)))
      case Some(op) =>
        var asked := p.asked + [Ask(l, providers[l], op)];
        match runs(asked)
        case Answered(value) => Progress(asked, p.queries + [value], Going)
        case Edited => Progress(asked, p.queries, EditFinished)
        case Failed => Progress(asked, p.queries, Stopped(RunFailed))
  }

  function VisitAll(ops: seq<Operation>, providers: Providers, id: string, runs: Runs, languages: seq<Language>): Progress {
    if languages == [] then NOTHING_YET
    else
      Visit(VisitAll(ops, providers, id, runs, languages[..|languages| - 1]), ops, providers, id, runs,
            languages[|languages| - 1])
  }

  lemma {:induction false} EndedStays(ops: seq<Operation>, providers: Providers, id: string, runs: Runs,
                                      languages: seq<Language>, n: nat)
    requires n <= |languages| && !VisitAll(ops, providers, id, runs, languages[..n]).ending.Going?
    ensures VisitAll(ops, providers, id, runs, languages) == VisitAll(ops, providers, id, runs, languages[..n])
    decreases |languages| - n
  {
    if n == |languages| {
      assert languages[..n] == languages;
    } else {
      assert languages[..n + 1][..n] == languages[..n];
      EndedStays(ops, providers, id, runs, languages, n + 1);
    }
  }

  /** Ask the provider of one more language, unless it was asked already. */
  method AskNext(ops: seq<Operation>, providers: Providers, id: string, runs: Runs, language: Language,
                 asked: seq<Ask>, queries: seq<Json>)
    returns (p: Progress)
    ensures p == Visit(Progress(asked, queries, Going), ops, providers, id, runs, language)
  {
    if language !in providers {
      return Progress(asked, queries, Stopped(NoProvider(language)));
    }
    var provider := providers[language];
    if WasAsked(asked, provider) {
      return Progress(asked, queries, Going);
    }
    var operation := Resolve(ops, id, language);
    if operation.None? {
      return Progress(asked, queries, Stopped(UnknownOperation(id)));
    }
    var nowAsked := asked + [Ask(language, provider, operation.value)];
    match runs(nowAsked) {
      case Answered(value) => p := Progress(nowAsked, queries + [value], Going);
      case Edited => p := Progress(nowAsked, queries, EditFinished);
      case Failed => p := Progress(nowAsked, queries, Stopped(RunFailed));
    }
  }

  method AskLoop(ops: seq<Operation>, providers: Providers, id: string, runs: Runs, languages: seq<Language>)
    returns (p: Progress)
    ensures p == VisitAll(ops, providers, id, runs, languages)
  {
    p := NOTHING_YET;
    for i := 0 to |languages|
      invariant p.ending.Going? && p == VisitAll(ops, providers, id, runs, languages[..i])
    {
      assert languages[..i + 1][..i] == languages[..i];
      p := AskNext(ops, providers, id, runs, languages[i], p.asked, p.queries);
      if !p.ending.Going? {
        EndedStays(ops, providers, id, runs, languages, i + 1);
        return;
      }
    }
    assert languages[..|languages|] == languages;
  }

  // ---------------------------------------------------------------- what asking guarantees

  predicate AskedOnce(asked: seq<Ask>) {
    forall i, j :: 0 <= i < |asked| && 0 <= j < |asked| && asked[i].provider == asked[j].provider ==> i == j
  }

  /** An operation handed the session of its language's provider. */
  predicate Fitting(ops: seq<Operation>, providers: Providers, id: string, languages: seq<Language>, ask: Ask) {
    && ask.language in languages
    && ask.language in providers && ask.provider == providers[ask.language]
    && ask.operation in ops && Serves(ask.operation, id, ask.language)
  }

  lemma {:induction false} AsksFit(ops: seq<Operation>, providers: Providers, id: string, runs: Runs,
                                   languages: seq<Language>)
    ensures AskedOnce(VisitAll(ops, providers, id, runs, languages).asked)
    ensures forall i :: 0 <= i < |VisitAll(ops, providers, id, runs, languages).asked| ==>
      Fitting(ops, providers, id, languages, VisitAll(ops, providers, id, runs, languages).asked[i])
  {
    if languages != [] {
      var init := languages[..|languages| - 1];
      AsksFit(ops, providers, id, runs, init);
      var before, after := VisitAll(ops, providers, id, runs, init), VisitAll(ops, providers, id, runs, languages);
      forall i | 0 <= i < |after.asked| ensures Fitting(ops, providers, id, languages, after.asked[i]) {
        if i < |before.asked| {
          assert Fitting(ops, providers, id, init, before.asked[i]);
        }
      }
    }
  }

  predicate Covered(providers: Providers, asked: seq<Ask>, language: Language) {
    language in providers && WasAsked(asked, providers[language])
  }

  lemma {:induction false} AsksCover(ops: seq<Operation>, providers: Providers, id: string, runs: Runs,
                                     languages: seq<Language>)
    requires VisitAll(ops, providers, id, runs, languages).ending.Going?
    ensures forall l :: l in languages ==> Covered(providers, VisitAll(ops, providers, id, runs, languages).asked, l)
    ensures |VisitAll(ops, providers, id, runs, languages).queries|
      == |VisitAll(ops, providers, id, runs, languages).asked|
  {
    if languages != [] {
      var init, last := languages[..|languages| - 1], languages[|languages| - 1];
      AsksCover(ops, providers, id, runs, init);
      var before, after := VisitAll(ops, providers, id, runs, init).asked, VisitAll(ops, providers, id, runs, languages).asked;
      forall l | l in languages ensures Covered(providers, after, l) {
        if l in init {
          assert Covered(providers, before, l);
          StillAsked(before, after, providers[l]);
        } else if |after| > |before| {
          assert after[|after| - 1].provider == providers[l];
        }
      }
    }
  }

  /** Providers are asked in the order of the languages, each for the first of its own. */
  lemma {:induction false} AskedInOrder(ops: seq<Operation>, providers: Providers, id: string, runs: Runs,
                                        languages: seq<Language>)
    returns (indexes: seq<nat>)
    ensures var asked := VisitAll(ops, providers, id, runs, languages).asked;
      |indexes| == |asked| && forall k :: 0 <= k < |asked| ==> AskedAs(providers, languages, asked[k], indexes[k])
    ensures forall j, k :: 0 <= j < k < |indexes| ==> indexes[j] < indexes[k]
  {
    if languages == [] {
      indexes := [];
    } else {
      var n := |languages| - 1;
      var init, l := languages[..n], languages[n];
      indexes := AskedInOrder(ops, providers, id, runs, init);
      var before, after := VisitAll(ops, providers, id, runs, init), VisitAll(ops, providers, id, runs, languages);
      forall k | 0 <= k < |before.asked| ensures AskedAs(providers, languages, before.asked[k], indexes[k]) {
        assert AskedAs(providers, init, before.asked[k], indexes[k]);
        assert languages[..indexes[k]] == init[..indexes[k]];
      }
      if |after.asked| > |before.asked| {
        AsksCover(ops, providers, id, runs, init);
        forall m | 0 <= m < n ensures languages[m] in providers && providers[languages[m]] != providers[l] {
          assert languages[m] == init[m] && Covered(providers, before.asked, languages[m]);
        }
        indexes := indexes + [n];
      }
    }
  }

  /** The ask is for language `i` of the list, the first whose provider it is. */
  predicate AskedAs(providers: Providers, languages: seq<Language>, ask: Ask, i: nat) {
    && i < |languages| && ask.language == languages[i] && ask.language in providers && ask.provider == providers[ask.language]
    && forall l :: l in languages[..i] ==> l in providers && providers[l] != ask.provider
  }

  lemma StillAsked(before: seq<Ask>, after: seq<Ask>, provider: Provider)
    requires before <= after && WasAsked(before, provider)
    ensures WasAsked(after, provider)
  {
    var i :| 0 <= i < |before| && before[i].provider == provider;
    assert after[i].provider == provider;
  }

  /** Providers register operations only for languages they serve. */
  predicate DeclaresOwn(ops: seq<Operation>, providers: Providers) {
    forall op :: op in ops ==> forall l :: l in op.languages ==> l in providers && providers[l] == op.contributor
  }

  /** The whole of dispatch, up to merging the answers. */
  function Dispatched(ops: seq<Operation>, providers: Providers, id: string, projectLanguages: seq<Language>,
                      fileLanguage: Option<Language>, route: Route, runs: Runs): Progress
  {
    var candidates := LanguagesFor(ops, id, projectLanguages);
    if candidates == [] then NOTHING_YET.(ending := Stopped(UnknownOperation(id)))
    else
      var described := Resolve(ops, id, candidates[0]).value;
      match DispatchLanguages(candidates, providers, described, fileLanguage, route)
      case Err(e) => NOTHING_YET.(ending := Stopped(e))
      case Ok(languages) => VisitAll(ops, providers, id, runs, languages)
  }

  /** No provider is asked twice; each is handed an operation registered under the id
      for one of the project's languages that it serves; and when providers register
      only for their own languages, that operation is one the provider itself
      contributed. */
  lemma EveryAskIsPaired(ops: seq<Operation>, providers: Providers, id: string, projectLanguages: seq<Language>,
                         fileLanguage: Option<Language>, route: Route, runs: Runs, i: nat)
    requires i < |Dispatched(ops, providers, id, projectLanguages, fileLanguage, route, runs).asked|
    ensures var asked := Dispatched(ops, providers, id, projectLanguages, fileLanguage, route, runs).asked;
      && AskedOnce(asked)
      && Fitting(ops, providers, id, projectLanguages, asked[i])
      && (DeclaresOwn(ops, providers) ==> asked[i].operation.contributor == asked[i].provider)
  {
    var candidates := LanguagesFor(ops, id, projectLanguages);
    var described := Resolve(ops, id, candidates[0]).value;
    DispatchedExactly(candidates, providers, described, fileLanguage, route);
    var languages := DispatchLanguages(candidates, providers, described, fileLanguage, route).value;
    AsksFit(ops, providers, id, runs, languages);
    assert Fitting(ops, providers, id, languages, VisitAll(ops, providers, id, runs, languages).asked[i]);
  }

  /** Dispatch stops of its own accord only before asking anyone: once languages were
      chosen, and providers register only for their own, every stop is a failed run. */
  lemma {:induction false} OnlyRunsStop(ops: seq<Operation>, providers: Providers, id: string, runs: Runs,
                                        languages: seq<Language>)
    requires DeclaresOwn(ops, providers)
    requires forall i :: 0 <= i < |languages| ==> Offers(ops, id, languages[i])
    ensures var ending := VisitAll(ops, providers, id, runs, languages).ending;
      ending.Stopped? ==> ending.error.RunFailed?
  {
    if languages != [] {
      OnlyRunsStop(ops, providers, id, runs, languages[..|languages| - 1]);
      assert Offers(ops, id, languages[|languages| - 1]);
      OwnHasProvider(ops, providers, id, languages[|languages| - 1]);
    }
  }

  /** What came of running `op` on the language's provider, when it was the only ask. */
  ghost predicate AskedOnly(p: Progress, runs: Runs, ask: Ask) {
    p.asked == [ask] &&
    match runs([ask])
    case Answered(value) => p.queries == [value] && p.ending == Going
    case Edited => p.queries == [] && p.ending == EditFinished
    case Failed => p.queries == [] && p.ending == Stopped(RunFailed)
  }

  /** The request ran for the language alone, with the first operation registered for it,
      or stopped because it has no provider. */
  ghost predicate RanFor(p: Progress, ops: seq<Operation>, providers: Providers, id: string, runs: Runs, l: Language)
    requires Offers(ops, id, l)
  {
    if l in providers then
      exists i :: 0 <= i < |ops| && IsFirst(ops, id, l, i) && AskedOnly(p, runs, Ask(l, providers[l], ops[i]))
    else p == Progress([], [], Stopped(NoProvider(l)))
  }

  lemma VisitOne(ops: seq<Operation>, providers: Providers, id: string, runs: Runs, l: Language)
    requires Offers(ops, id, l)
    ensures RanFor(VisitAll(ops, providers, id, runs, [l]), ops, providers, id, runs, l)
  {
    assert [l][..0] == [];
    assert VisitAll(ops, providers, id, runs, []) == NOTHING_YET;
    assert [] + [Ask(l, 0, Resolve(ops, id, l).value)] == [Ask(l, 0, Resolve(ops, id, l).value)];
  }

  /** A request that names a language the project has and that offers the operation runs
      there, once: on that language's provider, with the first operation registered for it. */
  lemma NamedLanguageIsAsked(ops: seq<Operation>, providers: Providers, id: string, projectLanguages: seq<Language>,
                             fileLanguage: Option<Language>, route: Route, runs: Runs, l: Language)
    requires Names(fileLanguage, route, l) && l in projectLanguages && Offers(ops, id, l)
    ensures RanFor(Dispatched(ops, providers, id, projectLanguages, fileLanguage, route, runs), ops, providers, id,
                   runs, l)
  {
    var candidates := LanguagesFor(ops, id, projectLanguages);
    assert Resolve(ops, id, l).Some? && l in candidates;
    var described := Resolve(ops, id, candidates[0]).value;
    DispatchedExactly(candidates, providers, described, fileLanguage, route);
    VisitOne(ops, providers, id, runs, l);
  }

  /** One that names a language the project has not runs on that language's provider when
      one of the project's languages shares it, and is refused otherwise. */
  lemma OtherLanguageSharesOrIsRefused(ops: seq<Operation>, providers: Providers, id: string,
                                       projectLanguages: seq<Language>, fileLanguage: Option<Language>, route: Route,
                                       runs: Runs, l: Language)
    requires Names(fileLanguage, route, l) && l !in LanguagesFor(ops, id, projectLanguages)
    requires LanguagesFor(ops, id, projectLanguages) != []
    ensures var p := Dispatched(ops, providers, id, projectLanguages, fileLanguage, route, runs);
      if Served(LanguagesFor(ops, id, projectLanguages), providers, l) then
        |p.asked| == 1 && l in providers && p.asked[0].provider == providers[l] && p.asked[0].language in projectLanguages
      else p == Progress([], [], Stopped(NotServed(id, l)))
  {
    var candidates := LanguagesFor(ops, id, projectLanguages);
    var described := Resolve(ops, id, candidates[0]).value;
    DispatchedExactly(candidates, providers, described, fileLanguage, route);
    var r := DispatchLanguages(candidates, providers, described, fileLanguage, route);
    if r.Ok? {
      var c := r.value[0];
      assert r.value == [c] && SharesProvider(providers, c, l) && Resolve(ops, id, c).Some?;
      VisitOne(ops, providers, id, runs, c);
    }
  }

  /** One that names nothing, and is no project-wide query, runs for the first of the
      project's languages that offers the operation. */
  lemma UnnamedRequestAsksFirst(ops: seq<Operation>, providers: Providers, id: string, projectLanguages: seq<Language>,
                                runs: Runs, i: nat)
    requires i < |projectLanguages| && FirstOffering(ops, id, projectLanguages, i)
    requires !IsProjectQuery(Resolve(ops, id, projectLanguages[i]).value)
    ensures RanFor(Dispatched(ops, providers, id, projectLanguages, None, Unspecified, runs), ops, providers, id, runs,
                   projectLanguages[i])
  {
    var candidates := LanguagesFor(ops, id, projectLanguages);
    assert projectLanguages[i] in candidates;
    var k := FirstCandidate(ops, id, projectLanguages);
    DispatchedExactly(candidates, providers, Resolve(ops, id, candidates[0]).value, None, Unspecified);
    VisitOne(ops, providers, id, runs, projectLanguages[i]);
  }

  /** An operation that none of the project's languages offers is refused. */
  lemma UnknownIsRefused(ops: seq<Operation>, providers: Providers, id: string, projectLanguages: seq<Language>,
                         fileLanguage: Option<Language>, route: Route, runs: Runs)
    requires forall l :: l in projectLanguages ==> !Offers(ops, id, l)
    ensures Dispatched(ops, providers, id, projectLanguages, fileLanguage, route, runs)
      == Progress([], [], Stopped(UnknownOperation(id)))
  {
    assert forall l :: l !in LanguagesFor(ops, id, projectLanguages);
  }

  /** An edit that is not refused is asked of exactly one provider, the one registered
      for the language that serves it; there always is one when providers register only
      for their own languages. */
  lemma AnEditAsksOne(ops: seq<Operation>, providers: Providers, id: string, projectLanguages: seq<Language>,
                      fileLanguage: Option<Language>, route: Route, runs: Runs)
    requires var candidates := LanguagesFor(ops, id, projectLanguages);
      candidates != [] && Resolve(ops, id, candidates[0]).value.kind == Edit
    ensures var p := Dispatched(ops, providers, id, projectLanguages, fileLanguage, route, runs);
      if Refused(LanguagesFor(ops, id, projectLanguages), providers, fileLanguage, route) then
        p.asked == [] && p.ending.Stopped?
      else
        exists l :: l in projectLanguages && ServesRequest(ops, providers, id, projectLanguages, fileLanguage, route, l)
          && Offers(ops, id, l) && RanFor(p, ops, providers, id, runs, l)
          && (DeclaresOwn(ops, providers) ==> l in providers)
  {
    var candidates := LanguagesFor(ops, id, projectLanguages);
    var described := Resolve(ops, id, candidates[0]).value;
    DispatchedExactly(candidates, providers, described, fileLanguage, route);
    var r := DispatchLanguages(candidates, providers, described, fileLanguage, route);
    if r.Ok? {
      var l := r.value[0];
      assert r.value == [l] && l in candidates && Resolve(ops, id, l).Some?;
      var k := FirstCandidate(ops, id, projectLanguages);
      VisitOne(ops, providers, id, runs, l);
      OwnHasProvider(ops, providers, id, l);
    }
  }

  lemma OwnHasProvider(ops: seq<Operation>, providers: Providers, id: string, l: Language)
    requires Offers(ops, id, l)
    ensures DeclaresOwn(ops, providers) ==> l in providers
  {
  }

  /** The request names a language nobody here serves, or a handle that cannot be placed. */
  ghost predicate Refused(candidates: seq<Language>, providers: Providers, fileLanguage: Option<Language>, route: Route) {
    || (fileLanguage == None && route.Unplaceable?)
    || (exists l :: Names(fileLanguage, route, l) && !Served(candidates, providers, l))
  }

  /** `l` serves the language the request names, or is the first to offer the operation. */
  ghost predicate ServesRequest(ops: seq<Operation>, providers: Providers, id: string, projectLanguages: seq<Language>,
                          fileLanguage: Option<Language>, route: Route, l: Language) {
    && (forall named :: Names(fileLanguage, route, named) ==>
      Stands(LanguagesFor(ops, id, projectLanguages), providers, named, l))
    && (fileLanguage == None && route.Unspecified? ==>
      exists i :: 0 <= i < |projectLanguages| && FirstOffering(ops, id, projectLanguages, i) && projectLanguages[i] == l)
  }

  /** What a request brings back follows from its runs: every answer is that of its own ask,
      and dispatch ends early only with the first edit, the first failed run, or a language
      without a provider or an operation. */
  lemma {:induction false} EndsAsRuns(ops: seq<Operation>, providers: Providers, id: string, runs: Runs,
                                      languages: seq<Language>)
    ensures RunsSoFar(VisitAll(ops, providers, id, runs, languages), runs)
    ensures var ending := VisitAll(ops, providers, id, runs, languages).ending;
      ending.Stopped? && !ending.error.RunFailed? ==>
        exists l :: l in languages &&
          ((ending.error == NoProvider(l) && l !in providers) || (ending.error == UnknownOperation(id) && !Offers(ops, id, l)))
  {
    if languages != [] {
      var init := languages[..|languages| - 1];
      EndsAsRuns(ops, providers, id, runs, init);
      VisitRuns(VisitAll(ops, providers, id, runs, init), ops, providers, id, runs, languages[|languages| - 1]);
    }
  }

  predicate RunsSoFar(p: Progress, runs: Runs) {
    && |p.queries| <= |p.asked|
    && (forall k :: 0 <= k < |p.queries| ==> runs(p.asked[..k + 1]) == Answered(p.queries[k]))
    && match p.ending
       case Going => |p.queries| == |p.asked|
       case EditFinished => |p.queries| + 1 == |p.asked| && runs(p.asked) == Edited
       case Stopped(RunFailed) => |p.queries| + 1 == |p.asked| && runs(p.asked) == Failed
       case Stopped(_) => |p.queries| == |p.asked|
  }

  lemma VisitRuns(p: Progress, ops: seq<Operation>, providers: Providers, id: string, runs: Runs, l: Language)
    requires RunsSoFar(p, runs)
    ensures RunsSoFar(Visit(p, ops, providers, id, runs, l), runs)
  {
    if AsksNow(p, ops, providers, id, l) {
      var asked := p.asked + [Ask(l, providers[l], Resolve(ops, id, l).value)];
      assert asked[..|asked|] == asked;
      forall k | 0 <= k < |p.queries| ensures runs(asked[..k + 1]) == Answered(p.queries[k]) {
        assert asked[..k + 1] == p.asked[..k + 1];
      }
    } else {
      VisitWithoutAsking(p, ops, providers, id, runs, l);
    }
  }

  /** A project-wide query that names no language and runs to its end has asked the
      provider of every language of the project that offers it. */
  lemma ProjectQueryAsksEveryProvider(ops: seq<Operation>, providers: Providers, id: string,
                                      projectLanguages: seq<Language>, runs: Runs, l: Language)
    requires var candidates := LanguagesFor(ops, id, projectLanguages);
      && l in candidates
      && var described := Resolve(ops, id, candidates[0]).value;
      described.target == Project && described.kind == Query
    requires Dispatched(ops, providers, id, projectLanguages, None, Unspecified, runs).ending.Going?
    ensures Covered(providers, Dispatched(ops, providers, id, projectLanguages, None, Unspecified, runs).asked, l)
  {
    AsksCover(ops, providers, id, runs, LanguagesFor(ops, id, projectLanguages));
  }

  // ---------------------------------------------------------------- one search over all backends

  /** What each provider's server answers a symbol search with. */
  type Servers = Provider -> Response

  function ResponsesOf(asked: seq<Ask>, servers: Servers): seq<Response> {
    if asked == [] then []
    else ResponsesOf(asked[..|asked| - 1], servers) + [servers(asked[|asked| - 1].provider)]
  }

  predicate RanSearch(runs: Runs, servers: Servers, limit: nat, asked: seq<Ask>)
    requires asked != []
  {
    runs(asked) == Answered(SymbolsToQuery(servers(asked[|asked| - 1].provider), limit))
  }

  /** Every run of the search converts its server's answer under the caller's limit. */
  ghost predicate RunsSearch(runs: Runs, servers: Servers, limit: nat) {
    forall asked: seq<Ask> :: asked != [] ==> RanSearch(runs, servers, limit, asked)
  }

  lemma AnswersGrow(asked: seq<Ask>, ask: Ask, servers: Servers, limit: nat)
    ensures Answers(ResponsesOf(asked + [ask], servers), limit)
      == Answers(ResponsesOf(asked, servers), limit) + [SymbolsToQuery(servers(ask.provider), limit)]
  {
    assert (asked + [ask])[..|asked|] == asked;
    var before, response := ResponsesOf(asked, servers), servers(ask.provider);
    assert ResponsesOf(asked + [ask], servers) == before + [response];
    assert (before + [response])[..|before|] == before;
  }

  predicate OnlyAnswers(p: Progress, servers: Servers, limit: nat) {
    p.queries == Answers(ResponsesOf(p.asked, servers), limit)
  }

  /** The language's provider is asked now. */
  predicate AsksNow(p: Progress, ops: seq<Operation>, providers: Providers, id: string, l: Language) {
    p.ending.Going? && l in providers && !WasAsked(p.asked, providers[l]) && Resolve(ops, id, l).Some?
  }

  lemma VisitWithoutAsking(p: Progress, ops: seq<Operation>, providers: Providers, id: string, runs: Runs, l: Language)
    requires !AsksNow(p, ops, providers, id, l)
    ensures var q := Visit(p, ops, providers, id, runs, l); q.asked == p.asked && q.queries == p.queries
  {
  }

  lemma VisitAsking(p: Progress, ops: seq<Operation>, providers: Providers, id: string, runs: Runs, l: Language,
                    value: Json)
    requires AsksNow(p, ops, providers, id, l)
    requires runs(p.asked + [Ask(l, providers[l], Resolve(ops, id, l).value)]) == Answered(value)
    ensures Visit(p, ops, providers, id, runs, l)
      == Progress(p.asked + [Ask(l, providers[l], Resolve(ops, id, l).value)], p.queries + [value], Going)
  {
  }

  lemma VisitAnswers(p: Progress, ops: seq<Operation>, providers: Providers, id: string, runs: Runs, l: Language,
                     servers: Servers, limit: nat)
    requires RunsSearch(runs, servers, limit) && OnlyAnswers(p, servers, limit)
    ensures OnlyAnswers(Visit(p, ops, providers, id, runs, l), servers, limit)
  {
    if AsksNow(p, ops, providers, id, l) {
      var ask := Ask(l, providers[l], Resolve(ops, id, l).value);
      assert RanSearch(runs, servers, limit, p.asked + [ask]);
      VisitAsking(p, ops, providers, id, runs, l, SymbolsToQuery(servers(ask.provider), limit));
      AnswersGrow(p.asked, ask, servers, limit);
    } else {
      VisitWithoutAsking(p, ops, providers, id, runs, l);
    }
  }

  lemma {:induction false} QueriesAreAnswers(ops: seq<Operation>, providers: Providers, id: string, runs: Runs,
                                             languages: seq<Language>, servers: Servers, limit: nat)
    requires RunsSearch(runs, servers, limit)
    ensures OnlyAnswers(VisitAll(ops, providers, id, runs, languages), servers, limit)
  {
    if languages != [] {
      var init, last := languages[..|languages| - 1], languages[|languages| - 1];
      QueriesAreAnswers(ops, providers, id, runs, init, servers, limit);
      VisitAnswers(VisitAll(ops, providers, id, runs, init), ops, providers, id, runs, last, servers, limit);
    }
  }

  /** A symbol search over a project of several languages answers as one backend would
      that held, once, the symbols of each provider asked: same count, same first
      matches, same flag. */
  lemma SearchAcrossBackends(ops: seq<Operation>, providers: Providers, id: string, runs: Runs,
                             languages: seq<Language>, servers: Servers, params: Json, p: Progress)
    requires RunsSearch(runs, servers, BackendLimit(params)) && UsableLimit(params)
    requires p == VisitAll(ops, providers, id, runs, languages) && p.asked != []
    requires |AllMatched(ResponsesOf(p.asked, servers))| < TWO_64
    ensures AskedOnce(p.asked)
    ensures MergedResults(p.queries, ResultLimit(params, SEARCH_SCHEMA))
      == SingleAnswer(ResponsesOf(p.asked, servers), BackendLimit(params))
  {
    QueriesAreAnswers(ops, providers, id, runs, languages, servers, BackendLimit(params));
    AsksFit(ops, providers, id, runs, languages);
    SearchIsOneSearch(ResponsesOf(p.asked, servers), params);
  }
}
