/** Rewriting one document by a list of text edits: resolve every range, sort by
    start, refuse overlaps, then splice from the back so that earlier offsets stay
    valid. `Forward` is the simple reading: the untouched stretches of the original
    in order, with each edit's text between them. */
module Rewrite {
  import opened Wrappers
  import opened Text

  datatype TextEdit = TextEdit(range: Range, newText: string)

  /** An edit whose range has been resolved to byte offsets. */
  datatype ByteEdit = ByteEdit(start: nat, end: nat, newText: string)

  /** `Inverted` is the case in which the program stops with a panic. */
  datatype EditError = OutOfRange(position: Position) | Overlapping | Inverted

  // ---------------------------------------------------------------- resolving

  function ResolveEdit(text: string, e: TextEdit, enc: Encoding): Result<ByteEdit, EditError> {
    match ResolveOffset(text, e.range.start, enc)
    case None => Err(OutOfRange(e.range.start))
    case Some(start) =>
      match ResolveOffset(text, e.range.end, enc)
      case None => Err(OutOfRange(e.range.end))
      case Some(end) => Ok(ByteEdit(start, end, e.newText))
  }

  /** All the values, or the first error. */
  function Collect<T, E>(rs: seq<Result<T, E>>): Result<seq<T>, E> {
    if rs == [] then Ok([])
    else
      match Collect(rs[..|rs| - 1])
      case Err(error) => Err(error)
      case Ok(values) =>
        match rs[|rs| - 1]
        case Err(error) => Err(error)
        case Ok(value) => Ok(values + [value])
  }

  lemma {:induction false} CollectEach<T, E>(rs: seq<Result<T, E>>)
    ensures match Collect(rs)
      case Ok(values) => |values| == |rs| && forall i :: 0 <= i < |rs| ==> rs[i] == Ok(values[i])
      case Err(error) => exists i :: 0 <= i < |rs| && rs[i] == Err(error) && forall j :: 0 <= j < i ==> rs[j].Ok?
  {
    if rs != [] {
      var before := rs[..|rs| - 1];
      CollectEach(before);
      match Collect(before) {
        case Err(error) =>
          var i :| 0 <= i < |before| && before[i] == Err(error) && forall j :: 0 <= j < i ==> before[j].Ok?;
          assert rs[i] == Err(error) && forall j :: 0 <= j < i ==> rs[j] == before[j];
        case Ok(values) =>
          assert forall i :: 0 <= i < |before| ==> rs[i] == before[i];
          if rs[|rs| - 1].Err? {
            assert rs[|rs| - 1] == Err(rs[|rs| - 1].error);
          }
      }
    }
  }

  lemma CollectOne<T, E>(r: Result<T, E>)
    ensures Collect([r]) == match r case Ok(value) => Ok([value]) case Err(error) => Err(error)
  {
    assert [r][..|[r]| - 1] == [];
    assert Collect<T, E>([]) == Ok([]);
    assert [r] != [] && [r][|[r]| - 1] == r;
    match r {
      case Ok(value) => assert [] + [value] == [value];
      case Err(error) =>
    }
  }

  lemma {:induction false} CollectStops<T, E>(rs: seq<Result<T, E>>, n: nat)
    requires n <= |rs| && Collect(rs[..n]).Err?
    ensures Collect(rs) == Collect(rs[..n])
    decreases |rs| - n
  {
    if n == |rs| {
      assert rs[..n] == rs;
    } else {
      assert rs[..n + 1][..n] == rs[..n];
      CollectStops(rs, n + 1);
    }
  }

  /** The next result either extends what was collected or ends it with its error. */
  lemma CollectNext<T, E>(rs: seq<Result<T, E>>, n: nat, values: seq<T>)
    requires n < |rs| && Collect(rs[..n]) == Ok(values)
    ensures rs[n].Ok? ==> Collect(rs[..n + 1]) == Ok(values + [rs[n].value])
    ensures rs[n].Err? ==> Collect(rs) == Err(rs[n].error)
  {
    assert rs[..n + 1][..n] == rs[..n];
    if rs[n].Err? {
      CollectStops(rs, n + 1);
    }
  }

  function Resolutions(text: string, edits: seq<TextEdit>, enc: Encoding): (rs: seq<Result<ByteEdit, EditError>>)
    ensures |rs| == |edits|
    ensures forall i :: 0 <= i < |edits| ==> rs[i] == ResolveEdit(text, edits[i], enc)
  {
    seq(|edits|, i requires 0 <= i < |edits| => ResolveEdit(text, edits[i], enc))
  }

  /** Resolve the edits in the order given; the first failure is reported. */
  function ResolveAll(text: string, edits: seq<TextEdit>, enc: Encoding): Result<seq<ByteEdit>, EditError> {
    Collect(Resolutions(text, edits, enc))
  }

  ghost predicate OnBoundaries(text: string, es: seq<ByteEdit>) {
    forall i :: 0 <= i < |es| ==> IsBoundary(text, es[i].start) && IsBoundary(text, es[i].end)
  }

  lemma ResolveEditBoundaries(text: string, e: TextEdit, enc: Encoding)
    ensures match ResolveEdit(text, e, enc)
      case Ok(b) => IsBoundary(text, b.start) && IsBoundary(text, b.end)
      case Err(error) => error.OutOfRange?
  {
    if ResolveEdit(text, e, enc).Ok? {
      CharIndexOfByteOf(text, ResolveIndex(text, e.range.start, enc).value);
      CharIndexOfByteOf(text, ResolveIndex(text, e.range.end, enc).value);
    }
  }

  lemma ResolvedOnBoundaries(text: string, edits: seq<TextEdit>, enc: Encoding)
    requires ResolveAll(text, edits, enc).Ok?
    ensures OnBoundaries(text, ResolveAll(text, edits, enc).value)
  {
    var es := ResolveAll(text, edits, enc).value;
    CollectEach(Resolutions(text, edits, enc));
    forall i | 0 <= i < |es| ensures IsBoundary(text, es[i].start) && IsBoundary(text, es[i].end) {
      ResolveEditBoundaries(text, edits[i], enc);
    }
  }

  // ---------------------------------------------------------------- sorting

  function InsertByStart(e: ByteEdit, es: seq<ByteEdit>): seq<ByteEdit> {
    if es == [] || e.start <= es[0].start then [e] + es
    else [es[0]] + InsertByStart(e, es[1..])
  }

  /** The stable sort by start offset. `StableSortIsUnique` shows there is only one. */
  function SortByStart(es: seq<ByteEdit>): seq<ByteEdit> {
    if es == [] then [] else InsertByStart(es[0], SortByStart(es[1..]))
  }

  predicate Sorted(es: seq<ByteEdit>) {
    forall i, j :: 0 <= i < j < |es| ==> es[i].start <= es[j].start
  }

  /** The edits starting at `start`, in list order. */
  function StartingAt(es: seq<ByteEdit>, start: nat): seq<ByteEdit> {
    if es == [] then []
    else (if es[0].start == start then [es[0]] else []) + StartingAt(es[1..], start)
  }

  /** They come in list order: list after list, and edit by edit (`StartingAtEach`). */
  lemma {:induction false} StartingAtJoins(a: seq<ByteEdit>, b: seq<ByteEdit>, start: nat)
    ensures StartingAt(a + b, start) == StartingAt(a, start) + StartingAt(b, start)
  {
    if a == [] {
      assert a + b == b && StartingAt(a, start) == [];
    } else {
      StartingAtJoins(a[1..], b, start);
      assert (a + b)[0] == a[0] && (a + b)[1..] == a[1..] + b;
      StartingAtUncons(a + b, start);
      StartingAtUncons(a, start);
      AssociateEdits([a[0]], StartingAt(a[1..], start), StartingAt(b, start));
    }
  }

  lemma AssociateEdits(a: seq<ByteEdit>, b: seq<ByteEdit>, c: seq<ByteEdit>)
    ensures a + (b + c) == a + b + c
  {
  }

  lemma StartingAtEach(e: ByteEdit, start: nat)
    ensures StartingAt([e], start) == if e.start == start then [e] else []
  {
    assert StartingAt([], start) == [];
  }

  lemma {:induction false} InsertPermutes(e: ByteEdit, es: seq<ByteEdit>)
    ensures multiset(InsertByStart(e, es)) == multiset{e} + multiset(es)
  {
    if !(es == [] || e.start <= es[0].start) {
      InsertPermutes(e, es[1..]);
      assert es == [es[0]] + es[1..];
    }
  }

  lemma InsertMembers(e: ByteEdit, es: seq<ByteEdit>)
    ensures forall x :: x in InsertByStart(e, es) <==> x == e || x in es
  {
    InsertPermutes(e, es);
    assert forall x :: x in InsertByStart(e, es) <==> x in multiset(InsertByStart(e, es));
  }

  lemma {:induction false} InsertSorts(e: ByteEdit, es: seq<ByteEdit>)
    requires Sorted(es)
    ensures Sorted(InsertByStart(e, es))
  {
    if !(es == [] || e.start <= es[0].start) {
      InsertSorts(e, es[1..]);
      InsertMembers(e, es[1..]);
      var t := InsertByStart(e, es[1..]);
      forall x | x in t ensures es[0].start <= x.start {
        if x != e {
          var i :| 0 <= i < |es[1..]| && es[1..][i] == x;
          assert es[i + 1] == x;
        }
      }
      assert forall i :: 0 <= i < |t| ==> t[i] in t;
    }
  }

  lemma StartingAtCons(e: ByteEdit, es: seq<ByteEdit>, start: nat)
    ensures e.start == start ==> StartingAt([e] + es, start) == [e] + StartingAt(es, start)
    ensures e.start != start ==> StartingAt([e] + es, start) == StartingAt(es, start)
  {
    assert ([e] + es)[1..] == es;
  }

  lemma {:induction false} InsertKeepsStarts(e: ByteEdit, es: seq<ByteEdit>, start: nat)
    requires Sorted(es)
    ensures e.start == start ==> StartingAt(InsertByStart(e, es), start) == [e] + StartingAt(es, start)
    ensures e.start != start ==> StartingAt(InsertByStart(e, es), start) == StartingAt(es, start)
  {
    if es == [] || e.start <= es[0].start {
      StartingAtCons(e, es, start);
    } else {
      InsertKeepsStarts(e, es[1..], start);
      StartingAtCons(es[0], InsertByStart(e, es[1..]), start);
      StartingAtCons(es[0], es[1..], start);
      assert es == [es[0]] + es[1..];
    }
  }

  lemma {:induction false} SortSorts(es: seq<ByteEdit>)
    ensures Sorted(SortByStart(es))
  {
    if es != [] {
      SortSorts(es[1..]);
      InsertSorts(es[0], SortByStart(es[1..]));
    }
  }

  lemma {:induction false} SortPermutes(es: seq<ByteEdit>)
    ensures multiset(SortByStart(es)) == multiset(es)
  {
    if es != [] {
      SortPermutes(es[1..]);
      InsertPermutes(es[0], SortByStart(es[1..]));
      assert es == [es[0]] + es[1..];
    }
  }

  lemma {:induction false} SortKeepsStarts(es: seq<ByteEdit>, start: nat)
    ensures StartingAt(SortByStart(es), start) == StartingAt(es, start)
  {
    if es != [] {
      SortKeepsStarts(es[1..], start);
      SortSorts(es[1..]);
      InsertKeepsStarts(es[0], SortByStart(es[1..]), start);
    }
  }

  /** Sorting orders by start, loses and invents nothing, and keeps edits that
      share a start in the order they were given. */
  lemma SortIsStable(es: seq<ByteEdit>, start: nat)
    ensures Sorted(SortByStart(es))
    ensures multiset(SortByStart(es)) == multiset(es)
    ensures StartingAt(SortByStart(es), start) == StartingAt(es, start)
  {
    SortSorts(es);
    SortPermutes(es);
    SortKeepsStarts(es, start);
  }

  lemma {:induction false} StartingAtMember(es: seq<ByteEdit>, i: nat)
    requires i < |es|
    ensures StartingAt(es, es[i].start) != []
  {
    if i > 0 {
      StartingAtMember(es[1..], i - 1);
    }
  }

  lemma {:induction false} StartingAtNone(es: seq<ByteEdit>, start: nat)
    requires forall i :: 0 <= i < |es| ==> es[i].start != start
    ensures StartingAt(es, start) == []
  {
    if es != [] {
      StartingAtNone(es[1..], start);
    }
  }

  lemma FirstStartIsTaken(es: seq<ByteEdit>)
    ensures es == [] || StartingAt(es, es[0].start) != []
  {
    if es != [] {
      StartingAtMember(es, 0);
    }
  }

  lemma NothingStartsBefore(es: seq<ByteEdit>, start: nat)
    requires Sorted(es)
    ensures es == [] || start < es[0].start ==> StartingAt(es, start) == []
  {
    if es == [] || start < es[0].start {
      StartingAtNone(es, start);
    }
  }

  lemma StartingAtUncons(es: seq<ByteEdit>, start: nat)
    requires es != []
    ensures es[0].start == start ==> StartingAt(es, start) == [es[0]] + StartingAt(es[1..], start)
    ensures es[0].start != start ==> StartingAt(es, start) == StartingAt(es[1..], start)
  {
  }

  /** Two sorted lists that agree on the order of edits sharing a start are equal:
      the order of the result depends on nothing but that. */
  lemma {:induction false} StableSortIsUnique(a: seq<ByteEdit>, b: seq<ByteEdit>)
    requires Sorted(a) && Sorted(b)
    requires forall start :: StartingAt(a, start) == StartingAt(b, start)
    ensures a == b
  {
    FirstStartIsTaken(a);
    FirstStartIsTaken(b);
    if a != [] && b != [] {
      NothingStartsBefore(a, b[0].start);
      NothingStartsBefore(b, a[0].start);
      var start := a[0].start;
      assert b[0].start == start;
      StartingAtUncons(a, start);
      StartingAtUncons(b, start);
      assert a[0] == StartingAt(a, start)[0] == StartingAt(b, start)[0] == b[0];
      forall s ensures StartingAt(a[1..], s) == StartingAt(b[1..], s) {
        StartingAtUncons(a, s);
        StartingAtUncons(b, s);
        assert StartingAt(a, s) == StartingAt(b, s);
        if s == start {
          assert StartingAt(a[1..], s) == StartingAt(a, s)[1..];
          assert StartingAt(b[1..], s) == StartingAt(b, s)[1..];
        }
      }
      StableSortIsUnique(a[1..], b[1..]);
    }
  }

  // ---------------------------------------------------------------- overlaps

  /** What the program checks: each edit ends before the next one starts. */
  predicate AdjacentOk(es: seq<ByteEdit>) {
    forall i :: 0 <= i < |es| - 1 ==> es[i].end <= es[i + 1].start
  }

  predicate PairwiseOk(es: seq<ByteEdit>) {
    forall i, j :: 0 <= i < j < |es| ==> es[i].end <= es[j].start
  }

  predicate Ordered(es: seq<ByteEdit>) {
    forall i :: 0 <= i < |es| ==> es[i].start <= es[i].end
  }

  /** `a` comes before `b` in the list: they may meet but not overlap, and an edit
      that is not an insertion must not share its start with a later one. */
  predicate Compatible(a: ByteEdit, b: ByteEdit) {
    if a.start <= b.start then a.end <= b.start else b.end <= a.start
  }

  lemma {:induction false} AdjacentIsPairwise(es: seq<ByteEdit>)
    requires Ordered(es)
    ensures AdjacentOk(es) <==> PairwiseOk(es)
  {
    if |es| > 1 {
      AdjacentIsPairwise(es[1..]);
      if AdjacentOk(es) {
        forall i, j | 0 <= i < j < |es| ensures es[i].end <= es[j].start {
          if i > 0 {
            assert es[1..][i - 1].end <= es[1..][j - 1].start;
          } else if j > 1 {
            assert es[1..][0].end <= es[1..][j - 1].start;
          }
        }
      }
    }
  }

  predicate EndsBefore(e: ByteEdit, es: seq<ByteEdit>) {
    forall x :: x in es ==> e.end <= x.start
  }

  predicate CompatibleWith(e: ByteEdit, es: seq<ByteEdit>) {
    forall x :: x in es ==> Compatible(e, x)
  }

  lemma PairwiseCons(e: ByteEdit, es: seq<ByteEdit>)
    ensures PairwiseOk([e] + es) <==> PairwiseOk(es) && EndsBefore(e, es)
  {
    var r := [e] + es;
    if PairwiseOk(r) {
      forall i, j | 0 <= i < j < |es| ensures es[i].end <= es[j].start {
        assert r[i + 1].end <= r[j + 1].start;
      }
      forall x | x in es ensures e.end <= x.start {
        var i :| 0 <= i < |es| && es[i] == x;
        assert r[0].end <= r[i + 1].start;
      }
    }
  }

  lemma CompatibleWithCons(e: ByteEdit, x: ByteEdit, es: seq<ByteEdit>)
    ensures CompatibleWith(e, [x] + es) <==> Compatible(e, x) && CompatibleWith(e, es)
  {
    if CompatibleWith(e, [x] + es) {
      assert x in [x] + es;
      assert forall y :: y in es ==> y in [x] + es;
    }
  }

  lemma EndsBeforeInsert(z: ByteEdit, e: ByteEdit, es: seq<ByteEdit>)
    ensures EndsBefore(z, InsertByStart(e, es)) <==> z.end <= e.start && EndsBefore(z, es)
  {
    InsertMembers(e, es);
  }

  lemma {:induction false} InsertPairwise(e: ByteEdit, es: seq<ByteEdit>)
    requires Sorted(es) && Ordered(es) && e.start <= e.end
    ensures PairwiseOk(InsertByStart(e, es)) <==> PairwiseOk(es) && CompatibleWith(e, es)
  {
    if es == [] || e.start <= es[0].start {
      PairwiseCons(e, es);
      forall x | x in es ensures e.end <= x.start <==> Compatible(e, x) {
        var i :| 0 <= i < |es| && es[i] == x;
      }
    } else {
      var rest := es[1..];
      InsertPairwise(e, rest);
      EndsBeforeInsert(es[0], e, rest);
      PairwiseCons(es[0], InsertByStart(e, rest));
      PairwiseCons(es[0], rest);
      CompatibleWithCons(e, es[0], rest);
      assert es == [es[0]] + rest;
    }
  }

  /** Every edit is compatible with every later one in the list. */
  predicate AllCompatible(es: seq<ByteEdit>) {
    forall i, j :: 0 <= i < j < |es| ==> Compatible(es[i], es[j])
  }

  lemma {:induction false} SortedPairwise(es: seq<ByteEdit>)
    requires Ordered(es)
    ensures PairwiseOk(SortByStart(es)) <==> AllCompatible(es)
  {
    if es != [] {
      var rest := es[1..];
      SortedPairwise(rest);
      SortIsStable(rest, 0);
      SortMembers(rest);
      SortKeepsOrdered(rest);
      InsertPairwise(es[0], SortByStart(rest));
      CompatibleCons(es);
    }
  }

  /** The adjacent check after sorting accepts exactly the lists whose edits are
      compatible two by two, whatever order they were given in. */
  lemma AcceptsExactlyCompatible(es: seq<ByteEdit>)
    requires Ordered(es)
    ensures AdjacentOk(SortByStart(es)) <==> AllCompatible(es)
  {
    SortKeepsOrdered(es);
    AdjacentIsPairwise(SortByStart(es));
    SortedPairwise(es);
  }

  lemma SortMembers(es: seq<ByteEdit>)
    ensures forall x :: x in SortByStart(es) <==> x in es
  {
    SortIsStable(es, 0);
    assert forall x :: x in SortByStart(es) <==> x in multiset(SortByStart(es));
  }

  lemma CompatibleCons(es: seq<ByteEdit>)
    requires es != []
    ensures AllCompatible(es) <==> AllCompatible(es[1..]) && CompatibleWith(es[0], es[1..])
  {
    var rest := es[1..];
    if AllCompatible(rest) && CompatibleWith(es[0], rest) {
      forall i, j | 0 <= i < j < |es| ensures Compatible(es[i], es[j]) {
        assert es[j] == rest[j - 1] && rest[j - 1] in rest;
        if i > 0 {
          assert es[i] == rest[i - 1];
        }
      }
    }
    if AllCompatible(es) {
      forall i, j | 0 <= i < j < |rest| ensures Compatible(rest[i], rest[j]) {
        assert Compatible(es[i + 1], es[j + 1]);
      }
      forall x | x in rest ensures Compatible(es[0], x) {
        var i :| 0 <= i < |rest| && rest[i] == x;
        assert Compatible(es[0], es[i + 1]);
      }
    }
  }

  lemma SortKeepsOrdered(es: seq<ByteEdit>)
    ensures Ordered(es) <==> Ordered(SortByStart(es))
  {
    SortMembers(es);
    var s := SortByStart(es);
    if Ordered(es) {
      forall i | 0 <= i < |s| ensures s[i].start <= s[i].end { assert s[i] in es; }
    }
    if Ordered(s) {
      forall i | 0 <= i < |es| ensures es[i].start <= es[i].end { assert es[i] in s; }
    }
  }

  // ---------------------------------------------------------------- splicing

  /** Replace the bytes `start..end` of a document. */
  function ReplaceRange(text: string, start: nat, end: nat, newText: string): string
    requires IsBoundary(text, start) && IsBoundary(text, end) && start <= end
  {
    text[..CharIndex(text, start)] + newText + text[CharIndex(text, end)..]
  }

  ghost predicate Spliceable(text: string, es: seq<ByteEdit>, from: nat) {
    && IsBoundary(text, from)
    && OnBoundaries(text, es) && Ordered(es) && AdjacentOk(es)
    && (es != [] ==> from <= es[0].start)
  }

  lemma SpliceableTail(text: string, es: seq<ByteEdit>, from: nat)
    requires Spliceable(text, es, from) && es != []
    ensures Spliceable(text, es[1..], es[0].end)
    ensures CharIndex(text, from) <= CharIndex(text, es[0].start) <= CharIndex(text, es[0].end)
  {
    var e := es[0];
    assert forall i :: 0 <= i < |es[1..]| ==> es[1..][i] == es[i + 1];
    ByteOfInjective(text, CharIndex(text, e.start), CharIndex(text, from));
    ByteOfInjective(text, CharIndex(text, e.end), CharIndex(text, e.start));
  }

  /** Simultaneous substitution, read forward from `from`: each untouched stretch
      of the original followed by the text of the edit that ends it. */
  ghost function Forward(text: string, es: seq<ByteEdit>, from: nat): string
    requires Spliceable(text, es, from)
    decreases |es|
  {
    if es == [] then text[CharIndex(text, from)..]
    else
      SpliceableTail(text, es, from);
      text[CharIndex(text, from)..CharIndex(text, es[0].start)] + es[0].newText
      + Forward(text, es[1..], es[0].end)
  }

  lemma SliceSplits(text: string, i: nat, j: nat, k: nat, rest: string)
    requires i <= j <= k <= |text|
    ensures text[i..k] + rest == text[i..j] + (text[j..k] + rest)
  {
  }

  /** Reading from further back only adds the original text in between. */
  lemma ForwardFromEarlier(text: string, es: seq<ByteEdit>, early: nat, late: nat)
    requires Spliceable(text, es, early) && Spliceable(text, es, late) && early <= late
    ensures CharIndex(text, early) <= CharIndex(text, late)
    ensures Forward(text, es, early) ==
      text[CharIndex(text, early)..CharIndex(text, late)] + Forward(text, es, late)
  {
    var i, j := CharIndex(text, early), CharIndex(text, late);
    ByteOfInjective(text, j, i);
    if es == [] {
      SliceSplits(text, i, j, |text|, []);
    } else {
      SpliceableTail(text, es, late);
      var e := es[0];
      var tail := Forward(text, es[1..], e.end);
      var k := CharIndex(text, e.start);
      SliceSplits(text, i, j, k, e.newText + tail);
      Associate(text[i..k], e.newText, tail);
      Associate(text[j..k], e.newText, tail);
    }
  }

  lemma Associate(a: string, b: string, c: string)
    ensures a + b + c == a + (b + c)
  {
  }

  lemma ZeroIsBoundary(text: string)
    ensures IsBoundary(text, 0) && CharIndex(text, 0) == 0
  {
    CharIndexOfByteOf(text, 0);
  }

  /** Boundaries inside a shared prefix mean the same in both documents. */
  lemma SharedBoundary(text: string, updated: string, k: nat, offset: nat)
    requires k <= |text| && k <= |updated| && text[..k] == updated[..k]
    requires IsBoundary(text, offset) && CharIndex(text, offset) <= k
    ensures IsBoundary(updated, offset) && CharIndex(updated, offset) == CharIndex(text, offset)
  {
    var c := CharIndex(text, offset);
    assert text[..c] == text[..k][..c] == updated[..k][..c] == updated[..c];
    ByteOfPrefix(text, updated, c);
    CharIndexOfByteOf(updated, c);
  }

  /** One splice in front of edits already spliced extends the substitution by one. */
  lemma SpliceExtends(text: string, es: seq<ByteEdit>, updated: string)
    requires es != [] && Spliceable(text, es, 0) && Spliceable(text, es[1..], 0)
    requires updated == Forward(text, es[1..], 0)
    ensures IsBoundary(updated, es[0].start) && IsBoundary(updated, es[0].end)
    ensures ReplaceRange(updated, es[0].start, es[0].end, es[0].newText) == Forward(text, es, 0)
  {
    var e := es[0];
    ZeroIsBoundary(text);
    SpliceableTail(text, es, 0);
    ForwardFromEarlier(text, es[1..], 0, e.end);
    var i, j := CharIndex(text, e.start), CharIndex(text, e.end);
    assert updated == text[..j] + Forward(text, es[1..], e.end);
    assert updated[..j] == text[..j];
    SharedBoundary(text, updated, j, e.start);
    SharedBoundary(text, updated, j, e.end);
    assert updated[..i] == text[..i] == text[0..i];
    assert updated[j..] == Forward(text, es[1..], e.end);
  }

  // ---------------------------------------------------------------- the rewrite

  /** The outcome of rewriting `text`, said without the splice loop. */
  ghost function RewriteText(text: string, edits: seq<TextEdit>, enc: Encoding): Result<string, EditError> {
    match ResolveAll(text, edits, enc)
    case Err(error) => Err(error)
    case Ok(resolved) =>
      var es := SortByStart(resolved);
      if !AdjacentOk(es) then Err(Overlapping)
      else if !Ordered(es) then Err(Inverted)
      else
        SortedIsSpliceable(text, edits, enc);
        Ok(Forward(text, es, 0))
  }

  lemma SortedIsSpliceable(text: string, edits: seq<TextEdit>, enc: Encoding)
    requires ResolveAll(text, edits, enc).Ok?
    ensures var es := SortByStart(ResolveAll(text, edits, enc).value);
      && OnBoundaries(text, es) && IsBoundary(text, 0)
      && (AdjacentOk(es) && Ordered(es) ==> Spliceable(text, es, 0))
  {
    var resolved := ResolveAll(text, edits, enc).value;
    ResolvedOnBoundaries(text, edits, enc);
    SortMembers(resolved);
    ZeroIsBoundary(text);
    var es := SortByStart(resolved);
    assert forall i :: 0 <= i < |es| ==> es[i] in resolved;
  }

  /** Resolve one range, start before end. */
  method ResolveEditLoop(text: string, e: TextEdit, enc: Encoding) returns (r: Result<ByteEdit, EditError>)
    ensures r == ResolveEdit(text, e, enc)
  {
    var start := ResolveOffsetLoop(text, e.range.start, enc);
    if start.None? {
      return Err(OutOfRange(e.range.start));
    }
    var end := ResolveOffsetLoop(text, e.range.end, enc);
    if end.None? {
      return Err(OutOfRange(e.range.end));
    }
    return Ok(ByteEdit(start.value, end.value, e.newText));
  }

  method ResolveAllLoop(text: string, edits: seq<TextEdit>, enc: Encoding)
    returns (r: Result<seq<ByteEdit>, EditError>)
    ensures r == ResolveAll(text, edits, enc)
  {
    ghost var rs := Resolutions(text, edits, enc);
    var byteEdits: seq<ByteEdit> := [];
    for i := 0 to |edits|
      invariant Collect(rs[..i]) == Ok(byteEdits)
    {
      var e := ResolveEditLoop(text, edits[i], enc);
      CollectNext(rs, i, byteEdits);
      if e.Err? {
        return Err(e.error);
      }
      byteEdits := byteEdits + [e.value];
    }
    assert rs[..|edits|] == rs;
    return Ok(byteEdits);
  }

  /** Look at each window of two edits. */
  method CheckAdjacent(es: seq<ByteEdit>) returns (ok: bool)
    ensures ok <==> AdjacentOk(es)
  {
    var i := 1;
    while i < |es|
      invariant 1 <= i
      invariant forall j :: 0 <= j < i - 1 && j + 1 < |es| ==> es[j].end <= es[j + 1].start
    {
      if es[i - 1].end > es[i].start {
        return false;
      }
      i := i + 1;
    }
    return true;
  }

  /** Rewrite a document the way the program does: resolve, sort, check, splice. */
  method RewriteFile(text: string, edits: seq<TextEdit>, enc: Encoding) returns (r: Result<string, EditError>)
    ensures r == RewriteText(text, edits, enc)
  {
    var resolved := ResolveAllLoop(text, edits, enc);
    if resolved.Err? {
      return Err(resolved.error);
    }
    var byteEdits := SortByStart(resolved.value);
    SortedIsSpliceable(text, edits, enc);
    var ok := CheckAdjacent(byteEdits);
    if !ok {
      return Err(Overlapping);
    }
    r := SpliceFromEnd(text, byteEdits);
  }

  /** Splice the edits in from the last to the first. */
  method SpliceFromEnd(text: string, es: seq<ByteEdit>) returns (r: Result<string, EditError>)
    requires OnBoundaries(text, es) && AdjacentOk(es) && IsBoundary(text, 0)
    ensures Ordered(es) ==> r == Ok(Forward(text, es, 0))
    ensures !Ordered(es) ==> r == Err(Inverted)
  {
    var updated := text;
    ZeroIsBoundary(text);
    var i := |es|;
    while i > 0
      invariant 0 <= i <= |es|
      invariant forall j :: i <= j < |es| ==> es[j].start <= es[j].end
      invariant Spliceable(text, es[i..], 0) && updated == Forward(text, es[i..], 0)
    {
      i := i - 1;
      var e := es[i];
      if e.start > e.end {
        return Err(Inverted);
      }
      assert es[i..][1..] == es[i + 1..];
      SpliceExtends(text, es[i..], updated);
      updated := ReplaceRange(updated, e.start, e.end, e.newText);
    }
    assert es[0..] == es;
    return Ok(updated);
  }

  // ---------------------------------------------------------------- what the rewrite means

  /** A rewrite succeeds exactly when every position exists, every range is in
      order, and the edits do not overlap two by two in the order they were given. */
  lemma SucceedsExactly(text: string, edits: seq<TextEdit>, enc: Encoding)
    ensures RewriteText(text, edits, enc).Ok? <==>
      && ResolveAll(text, edits, enc).Ok?
      && Ordered(ResolveAll(text, edits, enc).value)
      && AllCompatible(ResolveAll(text, edits, enc).value)
  {
    if ResolveAll(text, edits, enc).Ok? {
      var resolved := ResolveAll(text, edits, enc).value;
      SortKeepsOrdered(resolved);
      if Ordered(resolved) {
        AcceptsExactlyCompatible(resolved);
      }
    }
  }

  /** The panic is reached exactly when everything resolves, the check after
      sorting passes, and some range runs backwards; ranges given in order never do. */
  lemma PanicsExactly(text: string, edits: seq<TextEdit>, enc: Encoding)
    ensures RewriteText(text, edits, enc) == Err(Inverted) <==>
      && ResolveAll(text, edits, enc).Ok?
      && AdjacentOk(SortByStart(ResolveAll(text, edits, enc).value))
      && !Ordered(ResolveAll(text, edits, enc).value)
    ensures InOrder(edits) ==> RewriteText(text, edits, enc) != Err(Inverted)
  {
    if ResolveAll(text, edits, enc).Ok? {
      SortKeepsOrdered(ResolveAll(text, edits, enc).value);
      if InOrder(edits) {
        OrderedRangesResolve(text, edits, enc);
      }
    } else {
      FailsOutOfRange(text, edits, enc);
    }
  }

  /** Every range is given start before end. */
  predicate InOrder(edits: seq<TextEdit>) {
    forall i :: 0 <= i < |edits| ==> Before(edits[i].range.start, edits[i].range.end)
  }

  lemma OrderedRangesResolve(text: string, edits: seq<TextEdit>, enc: Encoding)
    requires InOrder(edits) && ResolveAll(text, edits, enc).Ok?
    ensures Ordered(ResolveAll(text, edits, enc).value)
  {
    var resolved := ResolveAll(text, edits, enc).value;
    CollectEach(Resolutions(text, edits, enc));
    forall i | 0 <= i < |resolved| ensures resolved[i].start <= resolved[i].end {
      assert Resolutions(text, edits, enc)[i] == Ok(resolved[i]);
      ResolveMonotone(text, edits[i].range.start, edits[i].range.end, enc);
    }
  }

  lemma FailsOutOfRange(text: string, edits: seq<TextEdit>, enc: Encoding)
    requires ResolveAll(text, edits, enc).Err?
    ensures ResolveAll(text, edits, enc).error.OutOfRange?
  {
    var rs := Resolutions(text, edits, enc);
    CollectEach(rs);
    var i :| 0 <= i < |rs| && rs[i] == Err(ResolveAll(text, edits, enc).error);
    ResolveEditBoundaries(text, edits[i], enc);
  }

  /** A position no line of the text has. */
  predicate Missing(text: string, p: Position) {
    p.line > LineOf(text, |text|)
  }

  /** Both ends of an edit's range exist. */
  predicate Reaches(text: string, e: TextEdit) {
    !Missing(text, e.range.start) && !Missing(text, e.range.end)
  }

  /** The end of an edit's range that is missing, the start if both are. */
  function MissingEnd(text: string, e: TextEdit): Position {
    if Missing(text, e.range.start) then e.range.start else e.range.end
  }

  /** Edit `i` is the first that does not reach. */
  predicate FirstMissing(text: string, edits: seq<TextEdit>, i: nat)
    requires i < |edits|
  {
    !Reaches(text, edits[i]) && forall j :: 0 <= j < i ==> Reaches(text, edits[j])
  }

  lemma EditResolvesExactly(text: string, e: TextEdit, enc: Encoding)
    ensures ResolveEdit(text, e, enc).Ok? <==> Reaches(text, e)
    ensures ResolveEdit(text, e, enc).Err? ==> ResolveEdit(text, e, enc).error == OutOfRange(MissingEnd(text, e))
  {
    ResolvesToLeastBoundary(text, e.range.start, enc);
    ResolvesToLeastBoundary(text, e.range.end, enc);
  }

  /** A rewrite reports a position as out of range exactly when no line of the text has
      some position of the list, and then the first of them, start before end. */
  lemma FirstMissingIsReported(text: string, edits: seq<TextEdit>, enc: Encoding)
    ensures ResolveAll(text, edits, enc).Ok? <==> forall i :: 0 <= i < |edits| ==> Reaches(text, edits[i])
    ensures ResolveAll(text, edits, enc).Err? ==>
      exists i :: 0 <= i < |edits| && FirstMissing(text, edits, i)
        && RewriteText(text, edits, enc) == Err(OutOfRange(MissingEnd(text, edits[i])))
  {
    var rs := Resolutions(text, edits, enc);
    CollectEach(rs);
    forall i | 0 <= i < |edits| ensures rs[i].Ok? <==> Reaches(text, edits[i]) {
      EditResolvesExactly(text, edits[i], enc);
    }
    if Collect(rs).Err? {
      var i :| 0 <= i < |rs| && rs[i] == Err(Collect(rs).error) && forall j :: 0 <= j < i ==> rs[j].Ok?;
      EditResolvesExactly(text, edits[i], enc);
      assert FirstMissing(text, edits, i);
    }
  }

  /** A concrete range that runs backwards passes every check and panics. */
  lemma BackwardsRangePanics()
    ensures RewriteText("ab", [TextEdit(Range(Position(0, 1), Position(0, 0)), "x")], Utf16) == Err(Inverted)
  {
    var e := TextEdit(Range(Position(0, 1), Position(0, 0)), "x");
    var text := "ab";
    assert LineEnd(text, 2) == 2 && LineEnd(text, 1) == 2 && LineEnd(text, 0) == 2;
    assert ContentEnd(text, 0) == 2;
    assert Walk(text, 1, 2, 1, 1, Utf16) == 1;
    assert ResolveIndex(text, Position(0, 1), Utf16) == Some(1);
    assert ResolveIndex(text, Position(0, 0), Utf16) == Some(0);
    assert ByteOf(text, 1) == 1;
    assert ResolveEdit(text, e, Utf16) == Ok(ByteEdit(1, 0, "x"));
    SingleResolution(text, e, Utf16);
    assert SortByStart([ByteEdit(1, 0, "x")]) == [ByteEdit(1, 0, "x")];
    PanicsExactly(text, [e], Utf16);
  }

  // Conservation of length

  function Len(text: string): nat {
    ByteOf(text, |text|)
  }

  function Removed(es: seq<ByteEdit>): int {
    if es == [] then 0 else es[0].end - es[0].start + Removed(es[1..])
  }

  function Inserted(es: seq<ByteEdit>): nat {
    if es == [] then 0 else Len(es[0].newText) + Inserted(es[1..])
  }

  lemma SliceLen(text: string, i: nat, j: nat)
    requires i <= j <= |text|
    ensures ByteOf(text, i) + Len(text[i..j]) == ByteOf(text, j)
  {
    assert text[..i] + text[i..j] == text[..j];
    ByteOfConcat(text[..i], text[i..j]);
    ByteOfPrefix(text, text[..i], i);
    ByteOfPrefix(text, text[..j], j);
  }

  lemma {:induction false} ForwardLen(text: string, es: seq<ByteEdit>, from: nat)
    requires Spliceable(text, es, from)
    ensures from + Len(Forward(text, es, from)) + Removed(es) == Len(text) + Inserted(es)
    decreases |es|
  {
    var i := CharIndex(text, from);
    if es == [] {
      SliceLen(text, i, |text|);
      assert text[i..|text|] == text[i..];
    } else {
      SpliceableTail(text, es, from);
      ForwardLen(text, es[1..], es[0].end);
      var gap := text[i..CharIndex(text, es[0].start)];
      SliceLen(text, i, CharIndex(text, es[0].start));
      ByteOfConcat(gap, es[0].newText);
      ByteOfConcat(gap + es[0].newText, Forward(text, es[1..], es[0].end));
    }
  }

  /** The new length in bytes is the old one less what the ranges covered plus what
      the edits brought in. */
  lemma LengthConserved(text: string, edits: seq<TextEdit>, enc: Encoding)
    requires RewriteText(text, edits, enc).Ok?
    ensures var es := SortByStart(ResolveAll(text, edits, enc).value);
      Len(RewriteText(text, edits, enc).value) == Len(text) - Removed(es) + Inserted(es)
  {
    SortedIsSpliceable(text, edits, enc);
    ForwardLen(text, SortByStart(ResolveAll(text, edits, enc).value), 0);
  }

  // Insertions at one position

  function Concat(texts: seq<string>): string {
    if texts == [] then [] else texts[0] + Concat(texts[1..])
  }

  function NewTexts(es: seq<ByteEdit>): seq<string> {
    if es == [] then [] else [es[0].newText] + NewTexts(es[1..])
  }

  lemma ConcatCons(t: string, texts: seq<string>)
    ensures Concat([t] + texts) == t + Concat(texts)
  {
    assert ([t] + texts)[1..] == texts;
  }

  lemma GapIsEmpty(text: string, c: nat, t: string, rest: string)
    requires c <= |text|
    ensures text[c..c] + t + rest == t + rest
  {
    assert text[c..c] == [];
  }

  lemma {:induction false} SortedAlready(es: seq<ByteEdit>)
    requires Sorted(es)
    ensures SortByStart(es) == es
  {
    if es != [] {
      SortedAlready(es[1..]);
    }
  }

  /** Of a sorted list, the edits that start before `at`, and the rest. */
  function Earlier(es: seq<ByteEdit>, at: nat): seq<ByteEdit> {
    if es == [] || es[0].start >= at then [] else [es[0]] + Earlier(es[1..], at)
  }

  function From(es: seq<ByteEdit>, at: nat): seq<ByteEdit> {
    if es == [] || es[0].start >= at then es else From(es[1..], at)
  }

  /** Of a sorted list, the edits that start after `at`. */
  function Later(es: seq<ByteEdit>, at: nat): seq<ByteEdit> {
    if es == [] || es[0].start > at then es else Later(es[1..], at)
  }

  /** Where the original text resumes after the edits that start at `at`. */
  function Resumes(es: seq<ByteEdit>, at: nat, end: nat): nat {
    if es == [] || es[0].start > at then end else Resumes(es[1..], at, es[0].end)
  }

  /** Each edit ends where the next starts or before, and the last at `to` or before. */
  predicate EndsBy(es: seq<ByteEdit>, from: nat, to: nat) {
    if es == [] then from <= to else from <= es[0].start <= es[0].end && EndsBy(es[1..], es[0].end, to)
  }

  /** Simultaneous substitution of the original between two offsets. */
  ghost function ForwardTo(text: string, es: seq<ByteEdit>, from: nat, to: nat): string
    requires IsBoundary(text, from) && IsBoundary(text, to) && OnBoundaries(text, es) && EndsBy(es, from, to)
    decreases |es|
  {
    if es == [] then
      ByteOfInjective(text, CharIndex(text, to), CharIndex(text, from));
      text[CharIndex(text, from)..CharIndex(text, to)]
    else
      ByteOfInjective(text, CharIndex(text, es[0].start), CharIndex(text, from));
      assert OnBoundaries(text, es[1..]);
      text[CharIndex(text, from)..CharIndex(text, es[0].start)] + es[0].newText
      + ForwardTo(text, es[1..], es[0].end, to)
  }

  lemma {:induction false} EarlierEnds(text: string, es: seq<ByteEdit>, from: nat, at: nat)
    requires Spliceable(text, es, from) && From(es, at) != [] && From(es, at)[0].start == at
    ensures OnBoundaries(text, Earlier(es, at)) && EndsBy(Earlier(es, at), from, at)
    ensures Spliceable(text, From(es, at), at)
    decreases |es|
  {
    if es[0].start < at {
      SpliceableTail(text, es, from);
      EarlierEnds(text, es[1..], es[0].end, at);
    }
  }

  lemma {:induction false} ForwardSplits(text: string, es: seq<ByteEdit>, from: nat, at: nat)
    requires Spliceable(text, es, from) && From(es, at) != [] && From(es, at)[0].start == at
    ensures OnBoundaries(text, Earlier(es, at)) && EndsBy(Earlier(es, at), from, at)
    ensures Spliceable(text, From(es, at), at)
    ensures Forward(text, es, from) == ForwardTo(text, Earlier(es, at), from, at) + Forward(text, From(es, at), at)
    decreases |es|
  {
    EarlierEnds(text, es, from, at);
    if es[0].start < at {
      SpliceableTail(text, es, from);
      ForwardSplits(text, es[1..], es[0].end, at);
      var gap := text[CharIndex(text, from)..CharIndex(text, es[0].start)] + es[0].newText;
      assert Earlier(es, at)[1..] == Earlier(es[1..], at);
      Associate(gap, ForwardTo(text, Earlier(es[1..], at), es[0].end, at), Forward(text, From(es, at), at));
    } else {
      ForwardFromEarlier(text, es, from, at);
    }
  }

  lemma NoGroup(es: seq<ByteEdit>, at: nat, end: nat)
    requires Sorted(es) && (es == [] || es[0].start > at)
    ensures Concat(NewTexts(StartingAt(es, at))) == [] && Later(es, at) == es && Resumes(es, at, end) == end
  {
    NothingStartsBefore(es, at);
  }

  lemma ForwardFromStart(text: string, es: seq<ByteEdit>)
    requires es != [] && Spliceable(text, es, es[0].start)
    ensures Spliceable(text, es[1..], es[0].end)
    ensures Forward(text, es, es[0].start) == es[0].newText + Forward(text, es[1..], es[0].end)
  {
    SpliceableTail(text, es, es[0].start);
    GapIsEmpty(text, CharIndex(text, es[0].start), es[0].newText, Forward(text, es[1..], es[0].end));
  }

  lemma GroupGrows(es: seq<ByteEdit>, at: nat)
    requires es != [] && es[0].start == at
    ensures Concat(NewTexts(StartingAt(es, at))) == es[0].newText + Concat(NewTexts(StartingAt(es[1..], at)))
    ensures Later(es, at) == Later(es[1..], at) && Resumes(es, at, at) == Resumes(es[1..], at, es[0].end)
  {
    var more := StartingAt(es[1..], at);
    assert ([es[0]] + more)[1..] == more;
    ConcatCons(es[0].newText, NewTexts(more));
  }

  /** The edits that start at `at`, where the list starts, are read one after the other,
      with nothing in between. */
  ghost predicate GroupJoins(text: string, es: seq<ByteEdit>, at: nat)
    requires Spliceable(text, es, at)
  {
    && Spliceable(text, Later(es, at), Resumes(es, at, at))
    && Forward(text, es, at)
      == Concat(NewTexts(StartingAt(es, at))) + Forward(text, Later(es, at), Resumes(es, at, at))
  }

  lemma LastOfGroupJoins(text: string, es: seq<ByteEdit>, at: nat)
    requires es != [] && es[0].start == at && Spliceable(text, es, at) && Sorted(es)
    requires es[1..] == [] || es[1].start > at
    ensures GroupJoins(text, es, at)
  {
    var rest := es[1..];
    ForwardFromStart(text, es);
    GroupGrows(es, at);
    NoGroup(rest, at, es[0].end);
    JoinGroup(es[0].newText, [], Forward(text, rest, es[0].end), Forward(text, rest, es[0].end), Forward(text, es, at));
  }

  lemma NextOfGroupJoins(text: string, es: seq<ByteEdit>, at: nat)
    requires es != [] && es[0].start == at && Spliceable(text, es, at)
    requires es[0].end == at && Spliceable(text, es[1..], at) && GroupJoins(text, es[1..], at)
    ensures GroupJoins(text, es, at)
  {
    var rest := es[1..];
    ForwardFromStart(text, es);
    GroupGrows(es, at);
    JoinGroup(es[0].newText, Concat(NewTexts(StartingAt(rest, at))),
      Forward(text, Later(es, at), Resumes(es, at, at)), Forward(text, rest, at), Forward(text, es, at));
  }

  lemma {:induction false} GroupIsConcatenated(text: string, es: seq<ByteEdit>, at: nat)
    requires es != [] && es[0].start == at && Spliceable(text, es, at) && Sorted(es)
    ensures GroupJoins(text, es, at)
    decreases |es|
  {
    if es[1..] != [] && es[1].start == at {
      SpliceableTail(text, es, at);
      GroupIsConcatenated(text, es[1..], at);
      NextOfGroupJoins(text, es, at);
    } else {
      LastOfGroupJoins(text, es, at);
    }
  }

  lemma JoinGroup(t: string, texts: string, after: string, rest: string, all: string)
    requires rest == texts + after && all == t + rest
    ensures all == t + texts + after
  {
  }

  lemma {:induction false} FromStartsAt(es: seq<ByteEdit>, at: nat)
    requires Sorted(es)
    ensures Sorted(From(es, at)) && StartingAt(From(es, at), at) == StartingAt(es, at)
    ensures StartingAt(es, at) != [] ==> From(es, at) != [] && From(es, at)[0].start == at
  {
    if es != [] && es[0].start < at {
      FromStartsAt(es[1..], at);
    } else {
      NothingStartsBefore(es, at);
    }
  }

  lemma {:induction false} ForwardToLen(text: string, es: seq<ByteEdit>, from: nat, to: nat)
    requires IsBoundary(text, from) && IsBoundary(text, to) && OnBoundaries(text, es) && EndsBy(es, from, to)
    ensures from + Len(ForwardTo(text, es, from, to)) + Removed(es) == to + Inserted(es)
    decreases |es|
  {
    var i := CharIndex(text, from);
    if es == [] {
      ByteOfInjective(text, CharIndex(text, to), i);
      SliceLen(text, i, CharIndex(text, to));
    } else {
      ByteOfInjective(text, CharIndex(text, es[0].start), i);
      assert OnBoundaries(text, es[1..]);
      ForwardToLen(text, es[1..], es[0].end, to);
      var gap := text[i..CharIndex(text, es[0].start)];
      SliceLen(text, i, CharIndex(text, es[0].start));
      ByteOfConcat(gap, es[0].newText);
      ByteOfConcat(gap + es[0].newText, ForwardTo(text, es[1..], es[0].end, to));
    }
  }

  /** In any accepted list, the edits that share a start, insertions and at most one
      replacement, land there together in the order the list gives them: behind the
      original up to there as the earlier edits change it, and before the rest of the
      original as the later ones do. */
  lemma InsertsKeepListOrder(text: string, edits: seq<TextEdit>, enc: Encoding, at: nat)
    returns (pre: string, post: string)
    requires RewriteText(text, edits, enc).Ok?
    requires StartingAt(ResolveAll(text, edits, enc).value, at) != []
    ensures var resolved := ResolveAll(text, edits, enc).value;
      RewriteText(text, edits, enc) == Ok(pre + Concat(NewTexts(StartingAt(resolved, at))) + post)
    ensures var es := SortByStart(ResolveAll(text, edits, enc).value);
      && IsBoundary(text, 0) && IsBoundary(text, at)
      && OnBoundaries(text, Earlier(es, at)) && EndsBy(Earlier(es, at), 0, at)
      && pre == ForwardTo(text, Earlier(es, at), 0, at)
      && Len(pre) + Removed(Earlier(es, at)) == at + Inserted(Earlier(es, at))
    ensures var rest := From(SortByStart(ResolveAll(text, edits, enc).value), at);
      && Spliceable(text, Later(rest, at), Resumes(rest, at, at))
      && post == Forward(text, Later(rest, at), Resumes(rest, at, at))
  {
    var resolved := ResolveAll(text, edits, enc).value;
    var es := SortByStart(resolved);
    var rest := From(es, at);
    SortIsStable(resolved, at);
    SortedIsSpliceable(text, edits, enc);
    FromStartsAt(es, at);
    ForwardSplits(text, es, 0, at);
    GroupIsConcatenated(text, rest, at);
    pre := ForwardTo(text, Earlier(es, at), 0, at);
    post := Forward(text, Later(rest, at), Resumes(rest, at, at));
    ForwardToLen(text, Earlier(es, at), 0, at);
    Associate(pre, Concat(NewTexts(StartingAt(resolved, at))), post);
  }

  // The order of the list

  predicate DistinctStarts(es: seq<ByteEdit>) {
    forall i, j :: 0 <= i < j < |es| ==> es[i].start != es[j].start
  }

  lemma {:induction false} StartingAtOne(es: seq<ByteEdit>, start: nat)
    requires DistinctStarts(es)
    ensures |StartingAt(es, start)| <= 1
    ensures forall x :: x in StartingAt(es, start) <==> x in es && x.start == start
  {
    if es != [] {
      StartingAtOne(es[1..], start);
      if es[0].start == start {
        StartingAtNone(es[1..], start);
      }
      assert es == [es[0]] + es[1..];
    }
  }

  lemma SameMembersSameStart(a: seq<ByteEdit>, b: seq<ByteEdit>, start: nat)
    requires DistinctStarts(a) && DistinctStarts(b)
    requires forall x :: x in a <==> x in b
    ensures StartingAt(a, start) == StartingAt(b, start)
  {
    StartingAtOne(a, start);
    StartingAtOne(b, start);
    SameSmallLists(StartingAt(a, start), StartingAt(b, start));
  }

  lemma SameSmallLists<T>(u: seq<T>, v: seq<T>)
    requires |u| <= 1 && |v| <= 1 && forall x :: x in u <==> x in v
    ensures u == v
  {
    if u != [] { assert u[0] in v; }
    if v != [] { assert v[0] in u; }
  }

  lemma PermutedDistinct(a: seq<ByteEdit>, b: seq<ByteEdit>)
    requires multiset(a) == multiset(b) && DistinctStarts(a)
    ensures DistinctStarts(b)
  {
    forall i, j | 0 <= i < j < |b| ensures b[i].start != b[j].start {
      if b[i] == b[j] {
        TwoOccurrences(b, i, j);
        TwiceInside(a, b[i]);
      } else {
        DistinctMembers(a, b[i], b[j]);
      }
    }
  }

  lemma TwoOccurrences<T>(b: seq<T>, i: nat, j: nat)
    requires i < j < |b| && b[i] == b[j]
    ensures multiset(b)[b[i]] >= 2
  {
    assert b == b[..i] + [b[i]] + b[i + 1..j] + [b[j]] + b[j + 1..];
  }

  lemma DistinctMembers(a: seq<ByteEdit>, x: ByteEdit, y: ByteEdit)
    requires DistinctStarts(a) && x in multiset(a) && y in multiset(a) && x != y
    ensures x.start != y.start
  {
    var m :| 0 <= m < |a| && a[m] == x;
    var n :| 0 <= n < |a| && a[n] == y;
    assert m < n || n < m;
  }

  lemma {:induction false} TwiceInside(a: seq<ByteEdit>, e: ByteEdit)
    requires multiset(a)[e] >= 2
    ensures exists m, n :: 0 <= m < n < |a| && a[m] == a[n] == e
  {
    assert e in multiset(a);
    var m :| 0 <= m < |a| && a[m] == e;
    assert a == a[..m] + [e] + a[m + 1..];
    assert multiset(a) == multiset(a[..m]) + multiset{e} + multiset(a[m + 1..]);
    var rest := a[..m] + a[m + 1..];
    assert e in multiset(rest);
    assert e in rest;
    var k :| 0 <= k < |rest| && rest[k] == e;
    if k < m {
      assert a[k] == e && a[m] == e;
    } else {
      assert a[k + 1] == e && a[m] == e;
    }
  }

  lemma PermutedSort(a: seq<ByteEdit>, b: seq<ByteEdit>)
    requires multiset(a) == multiset(b) && DistinctStarts(a)
    ensures SortByStart(a) == SortByStart(b)
  {
    PermutedDistinct(a, b);
    assert forall x :: x in a <==> x in multiset(a);
    assert forall x :: x in b <==> x in multiset(b);
    SortIsStable(a, 0);
    SortIsStable(b, 0);
    forall start ensures StartingAt(SortByStart(a), start) == StartingAt(SortByStart(b), start) {
      SortIsStable(a, start);
      SortIsStable(b, start);
      SameMembersSameStart(a, b, start);
    }
    StableSortIsUnique(SortByStart(a), SortByStart(b));
  }

  lemma RemoveCommon<T>(a: seq<T>, b: seq<T>) returns (i: nat)
    requires multiset(a) == multiset(b) && a != []
    ensures i < |b| && b[i] == a[0]
    ensures multiset(a[1..]) == multiset(b[..i] + b[i + 1..])
  {
    assert a[0] in multiset(b);
    i :| 0 <= i < |b| && b[i] == a[0];
    assert a == [a[0]] + a[1..];
    assert b == b[..i] + [b[i]] + b[i + 1..];
    assert multiset(a) == multiset{a[0]} + multiset(a[1..]);
    assert multiset(b) == multiset{b[i]} + multiset(b[..i] + b[i + 1..]);
    CancelOne(a[0], multiset(a[1..]), multiset(b[..i] + b[i + 1..]));
  }

  lemma CancelOne<T>(x: T, p: multiset<T>, q: multiset<T>)
    requires multiset{x} + p == multiset{x} + q
    ensures p == q
  {
    forall y ensures p[y] == q[y] {
      assert (multiset{x} + p)[y] == (multiset{x} + q)[y];
    }
  }

  lemma {:induction false} PermutedMap<T, U>(f: T -> U, a: seq<T>, b: seq<T>, ra: seq<U>, rb: seq<U>)
    requires multiset(a) == multiset(b)
    requires |ra| == |a| && forall i :: 0 <= i < |a| ==> ra[i] == f(a[i])
    requires |rb| == |b| && forall i :: 0 <= i < |b| ==> rb[i] == f(b[i])
    ensures multiset(ra) == multiset(rb)
  {
    if a == [] {
      assert |multiset(b)| == 0;
    } else {
      var i := RemoveCommon(a, b);
      PermutedMap(f, a[1..], b[..i] + b[i + 1..], ra[1..], rb[..i] + rb[i + 1..]);
      assert ra == [ra[0]] + ra[1..];
      assert rb == rb[..i] + [rb[i]] + rb[i + 1..];
    }
  }

  lemma PermutedResolve(text: string, a: seq<TextEdit>, b: seq<TextEdit>, enc: Encoding)
    requires multiset(a) == multiset(b)
    ensures multiset(Resolutions(text, a, enc)) == multiset(Resolutions(text, b, enc))
  {
    PermutedMap(e => ResolveEdit(text, e, enc), a, b, Resolutions(text, a, enc), Resolutions(text, b, enc));
  }

  lemma {:induction false} CollectedMultiset(rs: seq<Result<ByteEdit, EditError>>, values: seq<ByteEdit>, x: ByteEdit)
    requires |rs| == |values| && forall i :: 0 <= i < |rs| ==> rs[i] == Ok(values[i])
    ensures multiset(rs)[Ok(x)] == multiset(values)[x]
  {
    if rs != [] {
      CollectedMultiset(rs[1..], values[1..], x);
      assert rs == [rs[0]] + rs[1..];
      assert values == [values[0]] + values[1..];
    }
  }

  lemma PermutedCollect(ra: seq<Result<ByteEdit, EditError>>, rb: seq<Result<ByteEdit, EditError>>)
    requires multiset(ra) == multiset(rb)
    ensures Collect(ra).Ok? <==> Collect(rb).Ok?
    ensures Collect(ra).Ok? ==> multiset(Collect(ra).value) == multiset(Collect(rb).value)
  {
    CollectEach(ra);
    CollectEach(rb);
    assert forall r :: r in ra <==> r in multiset(ra);
    assert forall r :: r in rb <==> r in multiset(rb);
    if Collect(ra).Err? {
      assert Err(Collect(ra).error) in rb;
    }
    if Collect(rb).Err? {
      assert Err(Collect(rb).error) in ra;
    }
    if Collect(ra).Ok? && Collect(rb).Ok? {
      forall x: ByteEdit ensures multiset(Collect(ra).value)[x] == multiset(Collect(rb).value)[x] {
        CollectedMultiset(ra, Collect(ra).value, x);
        CollectedMultiset(rb, Collect(rb).value, x);
      }
    }
  }

  /** When no two edits start at the same place, the order of the list changes
      neither whether it is accepted nor what it produces. */
  lemma OrderOfListIsIrrelevant(text: string, a: seq<TextEdit>, b: seq<TextEdit>, enc: Encoding)
    requires multiset(a) == multiset(b)
    requires ResolveAll(text, a, enc).Ok? ==> DistinctStarts(ResolveAll(text, a, enc).value)
    ensures RewriteText(text, a, enc).Ok? <==> RewriteText(text, b, enc).Ok?
    ensures ResolveAll(text, a, enc).Ok? ==> RewriteText(text, a, enc) == RewriteText(text, b, enc)
  {
    PermutedResolve(text, a, b, enc);
    PermutedCollect(Resolutions(text, a, enc), Resolutions(text, b, enc));
    if ResolveAll(text, a, enc).Ok? {
      PermutedSort(ResolveAll(text, a, enc).value, ResolveAll(text, b, enc).value);
    }
  }

  // The guard on a selection

  /** The text a range covers, or `None` when an end is out of range or they are inverted. */
  method TextInRange(text: string, range: Range, enc: Encoding) returns (r: Option<string>)
    ensures r == CoveredText(text, range, enc)
  {
    var start := ResolveOffsetLoop(text, range.start, enc);
    if start.None? {
      return None;
    }
    var end := ResolveOffsetLoop(text, range.end, enc);
    if end.None? {
      return None;
    }
    CoveredIndexes(text, range, enc);
    if start.value <= end.value {
      return Some(text[CharIndex(text, start.value)..CharIndex(text, end.value)]);
    }
    return None;
  }

  ghost function CoveredText(text: string, range: Range, enc: Encoding): Option<string> {
    var i, j := ResolveIndex(text, range.start, enc), ResolveIndex(text, range.end, enc);
    if i.Some? && j.Some? && i.value <= j.value then Some(text[i.value..j.value]) else None
  }

  lemma CoveredIndexes(text: string, range: Range, enc: Encoding)
    requires ResolveIndex(text, range.start, enc).Some? && ResolveIndex(text, range.end, enc).Some?
    ensures var i, j := ResolveIndex(text, range.start, enc).value, ResolveIndex(text, range.end, enc).value;
      && IsBoundary(text, ByteOf(text, i)) && CharIndex(text, ByteOf(text, i)) == i
      && IsBoundary(text, ByteOf(text, j)) && CharIndex(text, ByteOf(text, j)) == j
      && (ByteOf(text, i) <= ByteOf(text, j) <==> i <= j)
  {
    var i, j := ResolveIndex(text, range.start, enc).value, ResolveIndex(text, range.end, enc).value;
    CharIndexOfByteOf(text, i);
    CharIndexOfByteOf(text, j);
    ByteOfInjective(text, j, i);
  }

  lemma SingleResolution(text: string, e: TextEdit, enc: Encoding)
    ensures ResolveEdit(text, e, enc).Ok? ==> ResolveAll(text, [e], enc) == Ok([ResolveEdit(text, e, enc).value])
    ensures ResolveEdit(text, e, enc).Err? ==> ResolveAll(text, [e], enc) == Err(ResolveEdit(text, e, enc).error)
  {
    assert Resolutions(text, [e], enc) == [ResolveEdit(text, e, enc)];
    CollectOne(ResolveEdit(text, e, enc));
  }

  /** The selection guard and the rewrite agree: one edit over a range is accepted
      exactly when the guard can quote the range, and it replaces exactly the
      quoted text. */
  lemma GuardedSelectionIsReplaced(text: string, e: TextEdit, enc: Encoding)
    ensures RewriteText(text, [e], enc).Ok? <==> CoveredText(text, e.range, enc).Some?
    ensures CoveredText(text, e.range, enc).Some? ==>
      var quoted := CoveredText(text, e.range, enc).value;
      exists pre, post :: text == pre + quoted + post
        && RewriteText(text, [e], enc) == Ok(pre + e.newText + post)
        && |pre| == ResolveIndex(text, e.range.start, enc).value
  {
    SingleResolution(text, e, enc);
    if ResolveEdit(text, e, enc).Ok? {
      CoveredIndexes(text, e.range, enc);
      SingleRewrite(text, e, enc);
      var i, j := ResolveIndex(text, e.range.start, enc).value, ResolveIndex(text, e.range.end, enc).value;
      if i <= j {
        assert text == text[..i] + text[i..j] + text[j..];
      }
    }
  }

  lemma SingleRewrite(text: string, e: TextEdit, enc: Encoding)
    requires ResolveEdit(text, e, enc).Ok?
    ensures var b := ResolveEdit(text, e, enc).value;
      && (b.start > b.end ==> RewriteText(text, [e], enc) == Err(Inverted))
      && (b.start <= b.end ==>
        && IsBoundary(text, b.start) && IsBoundary(text, b.end)
        && RewriteText(text, [e], enc)
          == Ok(text[..CharIndex(text, b.start)] + e.newText + text[CharIndex(text, b.end)..]))
  {
    var b := ResolveEdit(text, e, enc).value;
    SingleResolution(text, e, enc);
    ResolveEditBoundaries(text, e, enc);
    SortedAlready([b]);
    if b.start <= b.end {
      OneEditForward(text, b);
    }
  }

  lemma OneEditForward(text: string, b: ByteEdit)
    requires IsBoundary(text, b.start) && IsBoundary(text, b.end) && b.start <= b.end
    ensures Spliceable(text, [b], 0)
    ensures Forward(text, [b], 0) == text[..CharIndex(text, b.start)] + b.newText + text[CharIndex(text, b.end)..]
  {
    ZeroIsBoundary(text);
    SpliceableTail(text, [b], 0);
    assert [b][1..] == [];
    assert Forward(text, [], b.end) == text[CharIndex(text, b.end)..];
  }
}
