/** One symbol search answered by several backends. */
module Search {
  import opened Wrappers
  import opened Merge

  /** A symbol a server reports, as the entry it would be shown as. One without a
      range still awaits resolving, and is dropped. */
  datatype Symbol = Symbol(entry: Json, hasRange: bool)

  /** What a server answers: nothing at all, or a list. */
  type Response = Option<seq<Symbol>>

  const DEFAULT_LIMIT: nat := 200

  function Listed(symbols: seq<Symbol>): seq<Json> {
    if symbols == [] then []
    else
      var last := symbols[|symbols| - 1];
      Listed(symbols[..|symbols| - 1]) + if last.hasRange then [last.entry] else []
  }

  function Matched(response: Response): seq<Json> {
    if response.Some? then Listed(response.value) else []
  }

  /** An answer: how many matched, the matches shown, and whether some were cut. */
  function Form(count: nat, shown: seq<Json>, cut: bool): Json {
    var fields := map["count" := Whole(count), "symbols" := Arr(shown)];
    Obj(if cut then fields[TRUNCATED := Bool(true)] else fields)
  }

  function SymbolsToQuery(response: Response, limit: nat): Json {
    match response
    case None => Form(0, [], false)
    case Some(symbols) =>
      var matched := Listed(symbols);
      Form(|matched|, Take(matched, limit), |matched| > limit)
  }

  // ---------------------------------------------------------------- the limit

  function Get(v: Json, key: string): Option<Json> {
    if v.Obj? && key in v.fields then Some(v.fields[key]) else None
  }

  function AsUnsigned(v: Option<Json>): Option<nat> {
    if v.Some? && v.value.Whole? then Some(v.value.n) else None
  }

  function DeclaredDefault(schema: Json): Option<Json> {
    match Get(schema, "properties")
    case None => None
    case Some(properties) =>
      match Get(properties, "limit")
      case None => None
      case Some(limit) => Get(limit, "default")
  }

  /** The cap on the merged answer. */
  function ResultLimit(params: Json, schema: Json): Option<nat> {
    AsUnsigned(if Get(params, "limit").Some? then Get(params, "limit") else DeclaredDefault(schema))
  }

  /** The cap each backend applies to its own answer. */
  function BackendLimit(params: Json): nat {
    match AsUnsigned(Get(params, "limit")) case Some(n) => n case None => DEFAULT_LIMIT
  }

  const SEARCH_SCHEMA := Obj(map["properties" := Obj(map["limit" := Obj(map["default" := Whole(DEFAULT_LIMIT)])])])

  function Answers(responses: seq<Response>, limit: nat): seq<Json> {
    if responses == [] then []
    else Answers(responses[..|responses| - 1], limit) + [SymbolsToQuery(responses[|responses| - 1], limit)]
  }

  /** The search as a caller sees it. */
  function SearchAll(responses: seq<Response>, params: Json): Json {
    MergedResults(Answers(responses, BackendLimit(params)), ResultLimit(params, SEARCH_SCHEMA))
  }

  /** The answer one backend holding every symbol would have given. */
  function SingleAnswer(responses: seq<Response>, limit: nat): Json {
    SymbolsToQuery(Some(Together(responses)), limit)
  }

  function Together(responses: seq<Response>): seq<Symbol> {
    if responses == [] then []
    else
      var last := responses[|responses| - 1];
      Together(responses[..|responses| - 1]) + if last.Some? then last.value else []
  }

  // ---------------------------------------------------------------- merging answers

  lemma FormField(c: nat, a: seq<Json>, f: bool, k: string)
    ensures Form(c, a, f).Obj?
    ensures k in Form(c, a, f).fields <==> k == "count" || k == "symbols" || (f && k == TRUNCATED)
    ensures k == "count" ==> Form(c, a, f).fields[k] == Whole(c)
    ensures k == "symbols" ==> Form(c, a, f).fields[k] == Arr(a)
    ensures f && k == TRUNCATED ==> Form(c, a, f).fields[k] == Bool(true)
  {
  }

  lemma MergedForms(c: nat, a: seq<Json>, f: bool, d: nat, b: seq<Json>, g: bool)
    ensures Merged(Form(c, a, f), Form(d, b, g)) == Form(Sum64(c, d), a + b, f || g)
  {
    var l, r := Form(c, a, f), Form(d, b, g);
    var together := Form(Sum64(c, d), a + b, f || g);
    forall k ensures SameField(Merged(l, r), together, k) {
      FormField(c, a, f, k);
      FormField(d, b, g, k);
      FormField(Sum64(c, d), a + b, f || g, k);
      MergedField(l, r, k);
    }
    ObjectsEqual(Merged(l, r), together);
  }

  lemma CappedForm(c: nat, a: seq<Json>, f: bool, limit: nat)
    ensures Capped(Form(c, a, f), limit) == Form(c, Take(a, limit), f || |a| > limit)
  {
    var fields := Form(c, a, f).fields;
    assert fields["symbols"] == Arr(a);
    assert AnyExceeds(fields, limit) <==> |a| > limit by {
      if |a| > limit {
        assert Exceeds(fields["symbols"], limit);
      }
    }
    assert Capped(Form(c, a, f), limit).fields == Form(c, Take(a, limit), f || |a| > limit).fields;
  }

  lemma FormsDiffer(c: nat, a: seq<Json>, f: bool, d: nat, b: seq<Json>, g: bool)
    ensures Form(c, a, f) == Form(d, b, g) <==> c == d && a == b && f == g
  {
    var l, r := Form(c, a, f).fields, Form(d, b, g).fields;
    assert l["count"] == Whole(c) && r["count"] == Whole(d);
    assert l["symbols"] == Arr(a) && r["symbols"] == Arr(b);
    assert (TRUNCATED in l <==> f) && (TRUNCATED in r <==> g);
  }

  /** Everything matched, in the order the backends were asked. */
  function AllMatched(responses: seq<Response>): seq<Json> {
    if responses == [] then []
    else AllMatched(responses[..|responses| - 1]) + Matched(responses[|responses| - 1])
  }

  /** What is shown before the merged answer is cut. */
  function AllShown(responses: seq<Response>, limit: nat): seq<Json> {
    if responses == [] then []
    else AllShown(responses[..|responses| - 1], limit) + Take(Matched(responses[|responses| - 1]), limit)
  }

  predicate SomeCut(responses: seq<Response>, limit: nat) {
    responses != [] &&
    (SomeCut(responses[..|responses| - 1], limit) || |Matched(responses[|responses| - 1])| > limit)
  }

  /** The merged count: one answer is kept as it is, several are added in 64 bits. */
  function MergedCount(responses: seq<Response>): nat
    requires responses != []
  {
    var last := |Matched(responses[|responses| - 1])|;
    if |responses| == 1 then last else Sum64(MergedCount(responses[..|responses| - 1]), last)
  }

  lemma AnswerForm(response: Response, limit: nat)
    ensures SymbolsToQuery(response, limit)
      == Form(|Matched(response)|, Take(Matched(response), limit), |Matched(response)| > limit)
  {
  }

  lemma {:induction false} AnswersLength(responses: seq<Response>, limit: nat)
    ensures |Answers(responses, limit)| == |responses|
  {
    if responses != [] {
      AnswersLength(responses[..|responses| - 1], limit);
    }
  }

  lemma {:induction false} ReducedForm(responses: seq<Response>, limit: nat)
    requires responses != []
    ensures Reduced(Answers(responses, limit))
      == Form(MergedCount(responses), AllShown(responses, limit), SomeCut(responses, limit))
  {
    var n := |responses| - 1;
    var rest, last := responses[..n], responses[n];
    var answers := Answers(responses, limit);
    AnswersLength(responses, limit);
    AnswersLength(rest, limit);
    AnswerForm(last, limit);
    assert answers[..n] == Answers(rest, limit);
    if rest == [] {
      assert AllShown(rest, limit) == [] && !SomeCut(rest, limit);
      assert AllShown(responses, limit) == Take(Matched(last), limit);
    } else {
      ReducedForm(rest, limit);
      MergedForms(MergedCount(rest), AllShown(rest, limit), SomeCut(rest, limit),
        |Matched(last)|, Take(Matched(last), limit), |Matched(last)| > limit);
    }
  }

  /** Entries with a range are kept, in order: one by one, and list after list. */
  lemma ListedOne(symbol: Symbol)
    ensures Listed([symbol]) == if symbol.hasRange then [symbol.entry] else []
  {
    assert [symbol][..0] == [];
  }

  lemma {:induction false} ListedTogether(a: seq<Symbol>, b: seq<Symbol>)
    ensures Listed(a + b) == Listed(a) + Listed(b)
  {
    if b == [] {
      assert a + b == a;
    } else {
      assert (a + b)[..|a + b| - 1] == a + b[..|b| - 1];
      ListedTogether(a, b[..|b| - 1]);
    }
  }

  lemma {:induction false} TogetherMatches(responses: seq<Response>)
    ensures Listed(Together(responses)) == AllMatched(responses)
  {
    if responses != [] {
      var rest, last := responses[..|responses| - 1], responses[|responses| - 1];
      TogetherMatches(rest);
      if last.Some? {
        ListedTogether(Together(rest), last.value);
      } else {
        assert Together(responses) == Together(rest);
      }
    }
  }

  lemma {:induction false} CutsCompose(responses: seq<Response>, limit: nat)
    ensures Take(AllShown(responses, limit), limit) == Take(AllMatched(responses), limit)
    ensures SomeCut(responses, limit) || |AllShown(responses, limit)| > limit <==> |AllMatched(responses)| > limit
    ensures !SomeCut(responses, limit) ==> AllShown(responses, limit) == AllMatched(responses)
    ensures |AllShown(responses, limit)| <= |AllMatched(responses)|
  {
    if responses != [] {
      var rest, last := responses[..|responses| - 1], responses[|responses| - 1];
      CutsCompose(rest, limit);
      TakeBoth(AllShown(rest, limit), AllMatched(rest), Matched(last), limit);
    }
  }

  lemma TakeBoth<T>(shown: seq<T>, all: seq<T>, more: seq<T>, limit: nat)
    requires Take(shown, limit) == Take(all, limit)
    ensures Take(shown + Take(more, limit), limit) == Take(all + more, limit)
  {
  }

  lemma {:induction false} CountIsTotal(responses: seq<Response>)
    requires responses != []
    ensures |responses| == 1 ==> MergedCount(responses) == |AllMatched(responses)|
    ensures |responses| > 1 ==> MergedCount(responses) == |AllMatched(responses)| % TWO_64
  {
    var rest, last := responses[..|responses| - 1], responses[|responses| - 1];
    if rest == [] {
      assert AllMatched(rest) == [];
    } else {
      CountIsTotal(rest);
      ReduceFirst(|AllMatched(rest)|, |Matched(last)|);
    }
  }

  lemma ReduceFirst(x: nat, y: nat)
    ensures Sum64(x % TWO_64, y) == Sum64(x, y)
  {
    var r := x % TWO_64;
    var q := (r + y) / TWO_64;
    assert r + y == q * TWO_64 + (r + y) % TWO_64;
    ModUnique(x + y, x / TWO_64 + q, (r + y) % TWO_64);
  }

  lemma SingleForm(responses: seq<Response>, limit: nat)
    ensures SingleAnswer(responses, limit)
      == Form(|AllMatched(responses)|, Take(AllMatched(responses), limit), |AllMatched(responses)| > limit)
  {
    TogetherMatches(responses);
    AnswerForm(Some(Together(responses)), limit);
  }

  lemma CappedMergeForm(responses: seq<Response>, limit: nat)
    requires responses != []
    ensures MergedResults(Answers(responses, limit), Some(limit))
      == Form(MergedCount(responses), Take(AllMatched(responses), limit), |AllMatched(responses)| > limit)
  {
    ReducedForm(responses, limit);
    CutsCompose(responses, limit);
    CappedForm(MergedCount(responses), AllShown(responses, limit), SomeCut(responses, limit), limit);
  }

  lemma WrapsExactly(x: nat)
    ensures x % TWO_64 == x <==> x < TWO_64
  {
  }

  /** The merged count is the total unless adding it up wrapped. */
  lemma CountIsRightExactly(responses: seq<Response>)
    requires responses != []
    ensures MergedCount(responses) == |AllMatched(responses)|
      <==> |responses| == 1 || |AllMatched(responses)| < TWO_64
  {
    CountIsTotal(responses);
    WrapsExactly(|AllMatched(responses)|);
  }

  /** Two answers that show the same are the same when their counts are. */
  lemma SameButForCount(a: Json, b: Json, c: nat, d: nat, shown: seq<Json>, cut: bool)
    requires a == Form(c, shown, cut) && b == Form(d, shown, cut)
    ensures a == b <==> c == d
  {
    FormsDiffer(c, shown, cut, d, shown, cut);
  }

  lemma NobodyAnswered(limit: nat)
    ensures MergedResults(Answers([], limit), Some(limit)) != SingleAnswer([], limit)
  {
    assert Capped(Obj(map[]), limit).fields == map[];
    SingleForm([], limit);
    FormField(0, Take(AllMatched([]), limit), false, "count");
  }

  /** Merging the capped answers and capping again is the answer of a single backend
      holding every symbol: same count, same first matches, same flag. It fails only
      when nobody answered, or when the added counts wrap. */
  lemma MergedAnswersAreOneAnswer(responses: seq<Response>, limit: nat)
    ensures MergedResults(Answers(responses, limit), Some(limit)) == SingleAnswer(responses, limit)
      <==> |responses| == 1 || (responses != [] && |AllMatched(responses)| < TWO_64)
  {
    if responses == [] {
      NobodyAnswered(limit);
    } else {
      var all := AllMatched(responses);
      SingleForm(responses, limit);
      CappedMergeForm(responses, limit);
      CountIsRightExactly(responses);
      SameButForCount(MergedResults(Answers(responses, limit), Some(limit)), SingleAnswer(responses, limit),
        MergedCount(responses), |all|, Take(all, limit), |all| > limit);
    }
  }

  // ---------------------------------------------------------------- the caller's limit

  /** At most one backend matched anything. */
  predicate OneMatches(responses: seq<Response>) {
    responses == [] ||
    (if Matched(responses[|responses| - 1]) == [] then OneMatches(responses[..|responses| - 1])
     else AllMatched(responses[..|responses| - 1]) == [])
  }

  lemma {:induction false} NothingShown(responses: seq<Response>, limit: nat)
    requires AllMatched(responses) == []
    ensures AllShown(responses, limit) == [] && !SomeCut(responses, limit)
  {
    if responses != [] {
      NothingShown(responses[..|responses| - 1], limit);
    }
  }

  lemma {:induction false} CutShows(responses: seq<Response>, limit: nat)
    requires SomeCut(responses, limit)
    ensures |AllShown(responses, limit)| >= limit
  {
    if SomeCut(responses[..|responses| - 1], limit) {
      CutShows(responses[..|responses| - 1], limit);
    }
  }

  /** Without the final cap the merged list is the single answer's list, and the flag
      the single answer's flag, exactly when nothing had to be cut or one backend
      alone matched. */
  lemma {:induction false} UncutExactly(responses: seq<Response>, limit: nat)
    requires limit > 0
    ensures (AllShown(responses, limit) == Take(AllMatched(responses), limit)
        && (SomeCut(responses, limit) <==> |AllMatched(responses)| > limit))
      <==> |AllMatched(responses)| <= limit || OneMatches(responses)
  {
    if responses != [] {
      var rest, last := responses[..|responses| - 1], responses[|responses| - 1];
      if Matched(last) == [] {
        LastMatchedNothing(responses, limit);
        UncutExactly(rest, limit);
      } else if AllMatched(rest) == [] {
        NothingShown(rest, limit);
        assert AllShown(responses, limit) == Take(Matched(last), limit);
      } else if |AllMatched(responses)| > limit {
        TwoMatchedShowsTooMuch(responses, limit);
      } else {
        NothingCut(responses, limit);
      }
    }
  }

  lemma LastMatchedNothing(responses: seq<Response>, limit: nat)
    requires responses != [] && Matched(responses[|responses| - 1]) == []
    ensures var rest := responses[..|responses| - 1];
      && AllMatched(responses) == AllMatched(rest)
      && AllShown(responses, limit) == AllShown(rest, limit)
      && (SomeCut(responses, limit) <==> SomeCut(rest, limit))
  {
  }

  lemma NothingCut(responses: seq<Response>, limit: nat)
    requires |AllMatched(responses)| <= limit
    ensures AllShown(responses, limit) == AllMatched(responses) && !SomeCut(responses, limit)
  {
    CutsCompose(responses, limit);
  }

  /** When the last backend and another matched and the total is over the limit, either
      nothing is flagged or more than the limit is shown. */
  lemma TwoMatchedShowsTooMuch(responses: seq<Response>, limit: nat)
    requires responses != [] && limit > 0 && |AllMatched(responses)| > limit
    requires Matched(responses[|responses| - 1]) != [] && AllMatched(responses[..|responses| - 1]) != []
    ensures SomeCut(responses, limit) ==> |AllShown(responses, limit)| > limit
  {
    var rest, last := responses[..|responses| - 1], responses[|responses| - 1];
    CutsCompose(rest, limit);
    if SomeCut(rest, limit) {
      CutShows(rest, limit);
    }
  }

  predicate UsableLimit(params: Json) {
    Get(params, "limit").None? || Get(params, "limit").value.Whole?
  }

  lemma LimitsAgree(params: Json)
    ensures ResultLimit(params, SEARCH_SCHEMA)
      == if UsableLimit(params) then Some(BackendLimit(params)) else None
    ensures !UsableLimit(params) ==> BackendLimit(params) == DEFAULT_LIMIT
  {
    var limit := Obj(map["default" := Whole(DEFAULT_LIMIT)]);
    var properties := Obj(map["limit" := limit]);
    assert Get(SEARCH_SCHEMA, "properties") == Some(properties);
    assert Get(properties, "limit") == Some(limit);
    assert Get(limit, "default") == Some(Whole(DEFAULT_LIMIT));
  }

  lemma UncappedSearch(responses: seq<Response>, limit: nat)
    requires responses != [] && |AllMatched(responses)| < TWO_64 && limit > 0
    ensures Reduced(Answers(responses, limit)) == SingleAnswer(responses, limit)
      <==> |AllMatched(responses)| <= limit || OneMatches(responses)
  {
    CountIsRightExactly(responses);
    UncutExactly(responses, limit);
    UncappedForms(responses, limit, Reduced(Answers(responses, limit)), SingleAnswer(responses, limit));
  }

  lemma UncappedForms(responses: seq<Response>, limit: nat, merged: Json, single: Json)
    requires responses != []
    requires merged == Reduced(Answers(responses, limit)) && single == SingleAnswer(responses, limit)
    ensures merged == single <==>
      && MergedCount(responses) == |AllMatched(responses)|
      && AllShown(responses, limit) == Take(AllMatched(responses), limit)
      && (SomeCut(responses, limit) <==> |AllMatched(responses)| > limit)
  {
    ReducedForm(responses, limit);
    SingleForm(responses, limit);
    FormsDiffer(MergedCount(responses), AllShown(responses, limit), SomeCut(responses, limit),
      |AllMatched(responses)|, Take(AllMatched(responses), limit), |AllMatched(responses)| > limit);
  }

  /** A caller sees the answer of one backend exactly when the `limit` it gave is
      absent or a whole number, or the cap does not matter. A `limit` of any other
      kind is read as the default by each backend but as no cap by the merge. */
  lemma SearchIsOneSearch(responses: seq<Response>, params: Json)
    requires responses != [] && |AllMatched(responses)| < TWO_64
    ensures SearchAll(responses, params) == SingleAnswer(responses, BackendLimit(params))
      <==> UsableLimit(params) || |AllMatched(responses)| <= DEFAULT_LIMIT || OneMatches(responses)
  {
    LimitsAgree(params);
    if UsableLimit(params) {
      MergedAnswersAreOneAnswer(responses, BackendLimit(params));
    } else {
      UncappedSearch(responses, DEFAULT_LIMIT);
    }
  }

  /** The caller asks for at most `m` matches: by a `limit`, or by giving none and leaving
      it at two hundred. */
  predicate AsksFor(params: Json, m: nat) {
    if params.Obj? && "limit" in params.fields then params.fields["limit"] == Whole(m) else m == 200
  }

  /** What such a caller sees, member by member: how many symbols matched in all, the first
      of them, and a flag exactly when some are not shown. */
  lemma SearchShowsExactly(responses: seq<Response>, params: Json, m: nat)
    requires responses != [] && |AllMatched(responses)| < TWO_64 && AsksFor(params, m)
    ensures var all := AllMatched(responses);
      SearchAll(responses, params) == Obj(
        if |all| > m then map["count" := Whole(|all|), "symbols" := Arr(all[..m]), "truncated" := Bool(true)]
        else map["count" := Whole(|all|), "symbols" := Arr(all)])
  {
    assert BackendLimit(params) == m && UsableLimit(params);
    SearchIsOneSearch(responses, params);
    SingleForm(responses, m);
  }

  /** What matched comes server after server; one without an answer adds nothing. */
  lemma MatchedInTurn(before: seq<Response>, last: Response)
    ensures AllMatched([]) == []
    ensures AllMatched(before + [last]) == AllMatched(before)
      + match last case Some(symbols) => Listed(symbols) case None => []
  {
    assert (before + [last])[..|before|] == before;
  }

  /** `n` symbols, all alike. */
  function Copies(n: nat): seq<Symbol> {
    if n == 0 then [] else Copies(n - 1) + [Symbol(Null, true)]
  }

  lemma {:induction false} CopiesMatch(n: nat)
    ensures |Listed(Copies(n))| == n
  {
    if n > 0 {
      CopiesMatch(n - 1);
      assert Copies(n)[..|Copies(n)| - 1] == Copies(n - 1);
    }
  }

  /** A concrete search that shows more than a single backend would: `limit` is -1, one
      backend matches two hundred symbols, and another one more. */
  lemma NegativeLimitIsNoCap()
    ensures var params := Obj(map["limit" := OtherNumber(-1)]);
      var responses := [Some(Copies(200)), Some(Copies(1))];
      SearchAll(responses, params) != SingleAnswer(responses, BackendLimit(params))
  {
    var params := Obj(map["limit" := OtherNumber(-1)]);
    var responses: seq<Response> := [Some(Copies(200)), Some(Copies(1))];
    assert !UsableLimit(params);
    CopiesMatch(200);
    CopiesMatch(1);
    TwoMatch(Some(Copies(200)), Some(Copies(1)));
    SearchIsOneSearch(responses, params);
  }

  lemma TwoMatch(first: Response, second: Response)
    ensures |AllMatched([first, second])| == |Matched(first)| + |Matched(second)|
    ensures Matched(first) != [] && Matched(second) != [] ==> !OneMatches([first, second])
  {
    assert [first, second][..1] == [first] && [first][..0] == [];
    assert AllMatched([first]) == AllMatched([]) + Matched(first);
  }
}
