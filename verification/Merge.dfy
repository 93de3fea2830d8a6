/** Combining the answers several backends give to one query. */
module Merge {
  import opened Wrappers

  /** A JSON value. `Whole` is a number that reads as an unsigned 64-bit integer;
      `OtherNumber` is any other number, of which only the identity matters. */
  datatype Json =
    | Null
    | Bool(b: bool)
    | Whole(n: nat)
    | OtherNumber(id: int)
    | Str(s: string)
    | Arr(items: seq<Json>)
    | Obj(fields: map<string, Json>)

  const TRUNCATED := "truncated"

  // ---------------------------------------------------------------- merging two answers

  /** Addition on unsigned 64-bit integers. */
  function Sum64(x: nat, y: nat): nat {
    (x + y) % TWO_64
  }

  /** Objects merge key by key, lists concatenate, counts add (and wrap at 64 bits),
      flags or together, and anything else keeps the left answer. */
  function Merged(left: Json, right: Json): Json
    decreases left
  {
    match (left, right)
    case (Obj(l), Obj(r)) =>
      Obj(map k | k in l.Keys + r.Keys ::
        if k in l && k in r then Merged(l[k], r[k]) else if k in l then l[k] else r[k])
    case (Arr(l), Arr(r)) => Arr(l + r)
    case (Bool(l), Bool(r)) => Bool(l || r)
    case (Whole(l), Whole(r)) => Whole(Sum64(l, r))
    case _ => left
  }

  /** Merge by moving the right object's entries into the left one. */
  method MergeInto(left: Json, right: Json) returns (r: Json)
    ensures r == Merged(left, right)
    decreases left
  {
    match (left, right) {
      case (Obj(l), Obj(rightFields)) =>
        var fields := l;
        var todo := rightFields.Keys;
        while todo != {}
          invariant todo <= rightFields.Keys
          invariant fields.Keys == l.Keys + (rightFields.Keys - todo)
          invariant forall k :: k in todo && k in l ==> fields[k] == l[k]
          invariant forall k :: k in fields && k !in todo ==>
            fields[k] == if k in l && k in rightFields then Merged(l[k], rightFields[k])
                         else if k in l then l[k] else rightFields[k]
        {
          var k :| k in todo;
          var merged := rightFields[k];
          if k in fields {
            merged := MergeInto(fields[k], rightFields[k]);
          }
          fields := fields[k := merged];
          todo := todo - {k};
        }
        r := Obj(fields);
      case (Arr(l), Arr(items)) => r := Arr(l + items);
      case (Bool(l), Bool(b)) => r := Bool(l || b);
      case (Whole(l), Whole(n)) => r := Whole(Sum64(l, n));
      case _ => r := left;
    }
  }

  // ---------------------------------------------------------------- associativity

  datatype Kind = Object | List | Flag | Count | Kept

  function KindOf(v: Json): Kind {
    match v
    case Obj(_) => Object
    case Arr(_) => List
    case Bool(_) => Flag
    case Whole(_) => Count
    case _ => Kept
  }

  /** Every whole number in the value fits in 64 bits. */
  predicate Fits(v: Json) {
    match v
    case Whole(n) => n < TWO_64
    case Obj(fields) => forall k :: k in fields ==> Fits(fields[k])
    case _ => true
  }

  /** `c` adds nothing to `a`. */
  predicate Absorbs(a: Json, c: Json) {
    match (a, c)
    case (Obj(f), Obj(g)) => forall k :: k in g ==> k in f && Absorbs(f[k], g[k])
    case (Arr(_), Arr(items)) => items == []
    case (Bool(x), Bool(y)) => y ==> x
    case (Whole(_), Whole(n)) => n % TWO_64 == 0
    case _ => true
  }

  /** Where grouping does not matter: a value standing between two of one mergeable
      kind, and not of that kind itself, is dropped from the left but hides the
      third from the right, so there the third must add nothing. */
  predicate Regroups(a: Json, b: Json, c: Json) {
    if KindOf(a) == KindOf(c) && KindOf(a) != KindOf(b) then Absorbs(a, c)
    else if a.Obj? && b.Obj? && c.Obj? then
      forall k :: k in a.fields && k in b.fields && k in c.fields ==>
        Regroups(a.fields[k], b.fields[k], c.fields[k])
    else true
  }

  lemma {:induction false} AbsorbsExactly(a: Json, c: Json)
    requires Fits(a)
    ensures Merged(a, c) == a <==> Absorbs(a, c)
  {
    match (a, c) {
      case (Obj(f), Obj(g)) =>
        forall k | k in f && k in g ensures Merged(f[k], g[k]) == f[k] <==> Absorbs(f[k], g[k]) {
          AbsorbsExactly(f[k], g[k]);
        }
        var m := Merged(a, c).fields;
        assert m.Keys == f.Keys + g.Keys;
        if Absorbs(a, c) {
          assert m == f;
        } else {
          var k :| k in g && !(k in f && Absorbs(f[k], g[k]));
          assert k in m;
          assert k in f ==> m[k] == Merged(f[k], g[k]) != f[k];
        }
      case (Arr(x), Arr(y)) =>
        assert |x + y| == |x| + |y|;
        if y == [] { assert x + y == x; }
      case (Whole(x), Whole(y)) => WrapsToSame(x, y);
      case _ =>
    }
  }

  lemma WrapsToSame(x: nat, y: nat)
    requires x < TWO_64
    ensures Sum64(x, y) == x <==> y % TWO_64 == 0
  {
    var q, r := y / TWO_64, y % TWO_64;
    assert y == q * TWO_64 + r;
    if x + r < TWO_64 {
      ModUnique(x + y, q, x + r);
    } else {
      ModUnique(x + y, q + 1, x + r - TWO_64);
    }
  }

  lemma ModUnique(v: nat, q: nat, r: nat)
    requires v == q * TWO_64 + r && r < TWO_64
    ensures v % TWO_64 == r
  {
    var p := v / TWO_64;
    assert v == p * TWO_64 + v % TWO_64;
  }

  lemma SumsRegroup(a: nat, b: nat, c: nat)
    ensures Sum64(Sum64(a, b), c) == Sum64(a, Sum64(b, c))
  {
    var p, q := (a + b) / TWO_64, (b + c) / TWO_64;
    var s := a + b + c;
    var u, w := (a + b) % TWO_64 + c, a + (b + c) % TWO_64;
    assert s == p * TWO_64 + u && s == q * TWO_64 + w;
    var r := s % TWO_64;
    var k := s / TWO_64;
    assert s == k * TWO_64 + r;
    QuotientBounds(s, p, u, k, r);
    QuotientBounds(s, q, w, k, r);
    ModUnique(u, k - p, r);
    ModUnique(w, k - q, r);
  }

  lemma QuotientBounds(s: nat, p: nat, u: nat, k: nat, r: nat)
    requires s == p * TWO_64 + u && s == k * TWO_64 + r && r < TWO_64
    ensures p <= k && u == (k - p) * TWO_64 + r
  {
  }

  /** The value two objects have under a key once merged. */
  lemma MergedField(a: Json, b: Json, k: string)
    requires a.Obj? && b.Obj?
    ensures Merged(a, b).Obj?
    ensures k in Merged(a, b).fields <==> k in a.fields || k in b.fields
    ensures k in a.fields && k in b.fields ==> Merged(a, b).fields[k] == Merged(a.fields[k], b.fields[k])
    ensures k in a.fields && k !in b.fields ==> Merged(a, b).fields[k] == a.fields[k]
    ensures k !in a.fields && k in b.fields ==> Merged(a, b).fields[k] == b.fields[k]
  {
  }

  predicate InAll(a: Json, b: Json, c: Json, k: string)
    requires a.Obj? && b.Obj? && c.Obj?
  {
    k in a.fields && k in b.fields && k in c.fields
  }

  lemma FieldRegroups(a: Json, b: Json, c: Json, k: string)
    requires a.Obj? && b.Obj? && c.Obj?
    ensures var left, right := Merged(Merged(a, b), c), Merged(a, Merged(b, c));
      && left.Obj? && right.Obj?
      && (k in left.fields <==> k in right.fields)
      && (k in left.fields && !InAll(a, b, c, k) ==> left.fields[k] == right.fields[k])
      && (InAll(a, b, c, k) ==>
        && k in left.fields
        && left.fields[k] == Merged(Merged(a.fields[k], b.fields[k]), c.fields[k])
        && right.fields[k] == Merged(a.fields[k], Merged(b.fields[k], c.fields[k])))
  {
    MergedField(a, b, k);
    MergedField(b, c, k);
    MergedField(Merged(a, b), c, k);
    MergedField(a, Merged(b, c), k);
  }

  predicate SameField(l: Json, r: Json, k: string)
    requires l.Obj? && r.Obj?
  {
    (k in l.fields <==> k in r.fields) && (k in l.fields ==> l.fields[k] == r.fields[k])
  }

  lemma ObjectsEqual(l: Json, r: Json)
    requires l.Obj? && r.Obj?
    ensures l == r <==> forall k :: SameField(l, r, k)
  {
    if forall k :: SameField(l, r, k) {
      forall k ensures k in l.fields <==> k in r.fields {
        assert SameField(l, r, k);
      }
      forall k | k in l.fields ensures l.fields[k] == r.fields[k] {
        assert SameField(l, r, k);
      }
      assert l.fields == r.fields;
    }
  }

  predicate FieldAssociates(a: Json, b: Json, c: Json, k: string)
    requires a.Obj? && b.Obj? && c.Obj?
  {
    InAll(a, b, c, k) ==>
      Merged(Merged(a.fields[k], b.fields[k]), c.fields[k]) == Merged(a.fields[k], Merged(b.fields[k], c.fields[k]))
  }

  lemma FieldAssociatesExactly(a: Json, b: Json, c: Json, k: string)
    requires a.Obj? && b.Obj? && c.Obj?
    ensures Merged(Merged(a, b), c).Obj? && Merged(a, Merged(b, c)).Obj?
    ensures SameField(Merged(Merged(a, b), c), Merged(a, Merged(b, c)), k) <==> FieldAssociates(a, b, c, k)
  {
    FieldRegroups(a, b, c, k);
  }

  lemma ObjectsRegroup(a: Json, b: Json, c: Json, left: Json, right: Json)
    requires a.Obj? && b.Obj? && c.Obj?
    requires left == Merged(Merged(a, b), c) && right == Merged(a, Merged(b, c))
    ensures left == right <==> forall k :: FieldAssociates(a, b, c, k)
  {
    FieldAssociatesExactly(a, b, c, "");
    ObjectsEqual(left, right);
    forall k ensures SameField(left, right, k) <==> FieldAssociates(a, b, c, k) {
      FieldAssociatesExactly(a, b, c, k);
    }
  }

  predicate FieldRegroupsOk(a: Json, b: Json, c: Json, k: string)
    requires a.Obj? && b.Obj? && c.Obj?
  {
    InAll(a, b, c, k) ==> Regroups(a.fields[k], b.fields[k], c.fields[k])
  }

  lemma RegroupsByField(a: Json, b: Json, c: Json)
    requires a.Obj? && b.Obj? && c.Obj?
    ensures Regroups(a, b, c) <==> forall k :: FieldRegroupsOk(a, b, c, k)
  {
    if Regroups(a, b, c) {
      forall k ensures FieldRegroupsOk(a, b, c, k) {
      }
    }
    if forall k :: FieldRegroupsOk(a, b, c, k) {
      forall k | k in a.fields && k in b.fields && k in c.fields
        ensures Regroups(a.fields[k], b.fields[k], c.fields[k])
      {
        assert FieldRegroupsOk(a, b, c, k);
      }
    }
  }

  /** Merging keeps the left kind, and keeps the left value unless the kinds agree. */
  lemma MergeKinds(a: Json, b: Json)
    ensures KindOf(Merged(a, b)) == KindOf(a)
    ensures KindOf(a) != KindOf(b) || KindOf(a) == Kept ==> Merged(a, b) == a
  {
  }

  lemma ListsRegroup(a: Json, b: Json, c: Json)
    requires a.Arr? && b.Arr? && c.Arr?
    ensures Merged(Merged(a, b), c) == Merged(a, Merged(b, c))
  {
    assert a.items + b.items + c.items == a.items + (b.items + c.items);
  }

  lemma CountsRegroup(a: Json, b: Json, c: Json)
    requires a.Whole? && b.Whole? && c.Whole?
    ensures Merged(Merged(a, b), c) == Merged(a, Merged(b, c))
  {
    SumsRegroup(a.n, b.n, c.n);
  }

  lemma FlagsRegroup(a: Json, b: Json, c: Json)
    requires a.Bool? && b.Bool? && c.Bool?
    ensures Merged(Merged(a, b), c) == Merged(a, Merged(b, c))
  {
  }

  lemma OthersRegroup(a: Json, b: Json, c: Json)
    requires !(a.Obj? && b.Obj? && c.Obj?)
    requires !(KindOf(a) == KindOf(c) && KindOf(a) != KindOf(b))
    ensures Merged(Merged(a, b), c) == Merged(a, Merged(b, c))
  {
    if a.Arr? && b.Arr? && c.Arr? {
      ListsRegroup(a, b, c);
    } else if a.Whole? && b.Whole? && c.Whole? {
      CountsRegroup(a, b, c);
    } else if a.Bool? && b.Bool? && c.Bool? {
      FlagsRegroup(a, b, c);
    } else {
      MergeKinds(a, b);
      MergeKinds(b, c);
      MergeKinds(a, c);
      MergeKinds(Merged(a, b), c);
      MergeKinds(a, Merged(b, c));
    }
  }

  lemma SandwichMerges(a: Json, b: Json, c: Json)
    requires KindOf(a) == KindOf(c) && KindOf(a) != KindOf(b)
    ensures Merged(Merged(a, b), c) == Merged(a, c) && Merged(a, Merged(b, c)) == a
  {
    MergeKinds(a, b);
    MergeKinds(b, c);
    MergeKinds(a, Merged(b, c));
  }

  lemma {:induction false} FieldsRegroupExactly(a: Json, b: Json, c: Json)
    requires a.Obj? && b.Obj? && c.Obj? && Fits(a)
    ensures (forall k :: FieldAssociates(a, b, c, k)) <==> forall k :: FieldRegroupsOk(a, b, c, k)
    decreases a, 0
  {
    forall k ensures FieldAssociates(a, b, c, k) <==> FieldRegroupsOk(a, b, c, k) {
      if InAll(a, b, c, k) {
        RegroupsExactly(a.fields[k], b.fields[k], c.fields[k]);
      }
    }
  }

  /** Grouping the answers of three backends either way gives the same result exactly
      when no value stands between two it would keep apart. */
  lemma {:induction false} RegroupsExactly(a: Json, b: Json, c: Json)
    requires Fits(a)
    ensures Merged(Merged(a, b), c) == Merged(a, Merged(b, c)) <==> Regroups(a, b, c)
    decreases a, 1
  {
    if KindOf(a) == KindOf(c) && KindOf(a) != KindOf(b) {
      AbsorbsExactly(a, c);
      SandwichMerges(a, b, c);
    } else if a.Obj? && b.Obj? && c.Obj? {
      FieldsRegroupExactly(a, b, c);
      RegroupsByField(a, b, c);
      ObjectsRegroup(a, b, c, Merged(Merged(a, b), c), Merged(a, Merged(b, c)));
    } else {
      OthersRegroup(a, b, c);
    }
  }

  /** Two answers of one shape: a key holds one kind of value wherever it is present. */
  predicate SameShape(a: Json, b: Json) {
    KindOf(a) == KindOf(b) &&
    (a.Obj? && b.Obj? ==> forall k :: k in a.fields && k in b.fields ==> SameShape(a.fields[k], b.fields[k]))
  }

  lemma {:induction false} SameShapeRegroups(a: Json, b: Json, c: Json)
    requires SameShape(a, b)
    ensures Regroups(a, b, c)
    decreases a
  {
    if a.Obj? && c.Obj? {
      forall k | k in a.fields && k in b.fields && k in c.fields
        ensures Regroups(a.fields[k], b.fields[k], c.fields[k])
      {
        SameShapeRegroups(a.fields[k], b.fields[k], c.fields[k]);
      }
    }
  }

  lemma EmptyObjectIsIdentity(a: Json)
    requires a.Obj?
    ensures Merged(Obj(map[]), a) == a && Merged(a, Obj(map[])) == a
  {
    assert Merged(Obj(map[]), a).fields == a.fields;
    assert Merged(a, Obj(map[])).fields == a.fields;
  }

  /** Answers of one shape merge associatively, with the empty object as identity. */
  lemma SameShapeIsMonoid(a: Json, b: Json, c: Json)
    requires Fits(a) && SameShape(a, b)
    ensures Merged(Merged(a, b), c) == Merged(a, Merged(b, c))
    ensures a.Obj? ==> Merged(Obj(map[]), a) == a && Merged(a, Obj(map[])) == a
  {
    SameShapeRegroups(a, b, c);
    RegroupsExactly(a, b, c);
    if a.Obj? {
      EmptyObjectIsIdentity(a);
    }
  }

  /** A concrete sum that wraps. */
  lemma CountsWrap()
    ensures Merged(Whole(18446744073709551614), Whole(1)) == Whole(18446744073709551615)
    ensures Merged(Whole(18446744073709551615), Whole(1)) == Whole(0)
  {
  }

  /** A concrete grouping that matters: a text between two counts. */
  lemma TextBetweenCounts()
    ensures Merged(Merged(Whole(1), Str("x")), Whole(2)) == Whole(3)
    ensures Merged(Whole(1), Merged(Str("x"), Whole(2))) == Whole(1)
  {
  }

  // ---------------------------------------------------------------- capping

  function Take<T>(items: seq<T>, limit: nat): (r: seq<T>)
    ensures r <= items && |r| <= limit && (|items| <= limit ==> r == items) && (|items| > limit ==> |r| == limit)
  {
    if |items| <= limit then items else items[..limit]
  }

  predicate Exceeds(v: Json, limit: nat) {
    v.Arr? && |v.items| > limit
  }

  function CutTo(v: Json, limit: nat): Json {
    if v.Arr? then Arr(Take(v.items, limit)) else v
  }

  predicate AnyExceeds(fields: map<string, Json>, limit: nat) {
    exists k :: k in fields && Exceeds(fields[k], limit)
  }

  /** Every top-level list cut to `limit`, and flagged when one was shortened. */
  function Capped(v: Json, limit: nat): Json {
    if !v.Obj? then v
    else
      var cut := map k | k in v.fields :: CutTo(v.fields[k], limit);
      Obj(if AnyExceeds(v.fields, limit) then cut[TRUNCATED := Bool(true)] else cut)
  }

  /** Cut the lists one field at a time, in place. */
  method CapLists(merged: Json, limit: nat) returns (r: Json)
    ensures r == Capped(merged, limit)
  {
    if !merged.Obj? {
      return merged;
    }
    var fields := merged.fields;
    var truncated := false;
    var todo := fields.Keys;
    while todo != {}
      invariant todo <= fields.Keys == merged.fields.Keys
      invariant forall k :: k in todo ==> fields[k] == merged.fields[k]
      invariant forall k :: k in fields && k !in todo ==> fields[k] == CutTo(merged.fields[k], limit)
      invariant truncated <==> exists k :: k in fields && k !in todo && Exceeds(merged.fields[k], limit)
    {
      var k :| k in todo;
      if fields[k].Arr? && |fields[k].items| > limit {
        fields := fields[k := Arr(fields[k].items[..limit])];
        truncated := true;
      }
      todo := todo - {k};
    }
    assert fields == map k | k in merged.fields :: CutTo(merged.fields[k], limit);
    if truncated {
      fields := fields[TRUNCATED := Bool(true)];
    }
    return Obj(fields);
  }

  lemma TakeOfTaken<T>(a: seq<T>, b: seq<T>, limit: nat)
    ensures Take(Take(a, limit) + b, limit) == Take(a + b, limit)
    ensures |a| > limit ==> |a + b| > limit
  {
  }

  lemma CappedField(v: Json, limit: nat, k: string)
    requires v.Obj?
    ensures Capped(v, limit).Obj?
    ensures k in Capped(v, limit).fields <==> k in v.fields || (k == TRUNCATED && AnyExceeds(v.fields, limit))
    ensures k in v.fields && !(k == TRUNCATED && AnyExceeds(v.fields, limit)) ==>
      Capped(v, limit).fields[k] == CutTo(v.fields[k], limit)
    ensures AnyExceeds(v.fields, limit) ==>
      TRUNCATED in Capped(v, limit).fields && Capped(v, limit).fields[TRUNCATED] == Bool(true)
  {
  }

  /** Capping the left answer before merging makes no difference to the capped
      result, whatever the shapes. */
  lemma CappingEarlyIsHarmless(a: Json, b: Json, limit: nat)
    ensures Capped(Merged(Capped(a, limit), b), limit) == Capped(Merged(a, b), limit)
  {
    if a.Obj? {
      if !AnyExceeds(a.fields, limit) {
        assert Capped(a, limit).fields == a.fields;
      } else if b.Obj? {
        CappingObjects(a, b, limit);
      } else {
        CappingTwice(a, limit);
      }
    }
  }

  lemma CappingTwice(a: Json, limit: nat)
    requires a.Obj?
    ensures Capped(Capped(a, limit), limit) == Capped(a, limit)
  {
    var once := Capped(a, limit).fields;
    assert !AnyExceeds(once, limit);
    assert Capped(Capped(a, limit), limit).fields == once;
  }

  lemma MergedExceeds(a: Json, b: Json, limit: nat)
    requires Exceeds(a, limit)
    ensures Exceeds(Merged(a, b), limit)
  {
  }

  lemma CutMerged(a: Json, b: Json, limit: nat)
    ensures CutTo(Merged(CutTo(a, limit), b), limit) == CutTo(Merged(a, b), limit)
  {
    if a.Arr? && b.Arr? {
      TakeOfTaken(a.items, b.items, limit);
    }
  }

  lemma CappingField(a: Json, b: Json, limit: nat, k: string)
    requires a.Obj? && b.Obj? && AnyExceeds(a.fields, limit) && k != TRUNCATED
    ensures Capped(Merged(Capped(a, limit), b), limit).Obj? && Capped(Merged(a, b), limit).Obj?
    ensures SameField(Capped(Merged(Capped(a, limit), b), limit), Capped(Merged(a, b), limit), k)
  {
    CappedField(a, limit, k);
    MergedField(Capped(a, limit), b, k);
    MergedField(a, b, k);
    CappedField(Merged(Capped(a, limit), b), limit, k);
    CappedField(Merged(a, b), limit, k);
    if k in a.fields && k in b.fields {
      CutMerged(a.fields[k], b.fields[k], limit);
    }
  }

  lemma CappingFlag(a: Json, b: Json, limit: nat)
    requires a.Obj? && b.Obj? && AnyExceeds(a.fields, limit)
    ensures SameField(Capped(Merged(Capped(a, limit), b), limit), Capped(Merged(a, b), limit), TRUNCATED)
  {
    var early, late := Merged(Capped(a, limit), b), Merged(a, b);
    var x :| x in a.fields && Exceeds(a.fields[x], limit);
    MergedField(a, b, x);
    if x in b.fields {
      MergedExceeds(a.fields[x], b.fields[x], limit);
    }
    assert Exceeds(late.fields[x], limit) && AnyExceeds(late.fields, limit);
    CappedField(a, limit, TRUNCATED);
    MergedField(Capped(a, limit), b, TRUNCATED);
    FlagStays(b, early);
    CappedField(early, limit, TRUNCATED);
    CappedField(late, limit, TRUNCATED);
  }

  /** A raised flag merged with anything is the raised flag. */
  lemma FlagStays(b: Json, early: Json)
    requires early.Obj? && b.Obj? && TRUNCATED in early.fields
    requires TRUNCATED in b.fields ==> early.fields[TRUNCATED] == Merged(Bool(true), b.fields[TRUNCATED])
    requires TRUNCATED !in b.fields ==> early.fields[TRUNCATED] == Bool(true)
    ensures early.fields[TRUNCATED] == Bool(true)
  {
  }

  lemma CappingObjects(a: Json, b: Json, limit: nat)
    requires a.Obj? && b.Obj? && AnyExceeds(a.fields, limit)
    ensures Capped(Merged(Capped(a, limit), b), limit) == Capped(Merged(a, b), limit)
  {
    CappingFlag(a, b, limit);
    forall k ensures SameField(Capped(Merged(Capped(a, limit), b), limit), Capped(Merged(a, b), limit), k) {
      if k != TRUNCATED {
        CappingField(a, b, limit, k);
      }
    }
    ObjectsEqual(Capped(Merged(Capped(a, limit), b), limit), Capped(Merged(a, b), limit));
  }

  // ---------------------------------------------------------------- merging all answers

  function Reduced(results: seq<Json>): Json {
    if results == [] then Obj(map[])
    else if |results| == 1 then results[0]
    else Merged(Reduced(results[..|results| - 1]), results[|results| - 1])
  }

  function MergedResults(results: seq<Json>, limit: Option<nat>): Json {
    match limit case Some(n) => Capped(Reduced(results), n) case None => Reduced(results)
  }

  /** Merge the answers from the first to the last, then cap. */
  method MergeQueryResults(results: seq<Json>, limit: Option<nat>) returns (r: Json)
    ensures r == MergedResults(results, limit)
  {
    if results == [] {
      r := Obj(map[]);
    } else {
      r := results[0];
      assert results[..1] == [results[0]];
      for i := 1 to |results|
        invariant r == Reduced(results[..i])
      {
        assert results[..i + 1][..i] == results[..i];
        r := MergeInto(r, results[i]);
      }
      assert results[..|results|] == results;
    }
    if limit.Some? {
      r := CapLists(r, limit.value);
    }
  }

  /** Merging no answers gives what adds nothing to any answer, and merging one gives it. */
  lemma NoAnswersAddNothing(a: Json)
    requires a.Obj?
    ensures Merged(MergedResults([], None), a) == a && Merged(a, MergedResults([], None)) == a
    ensures MergedResults([a], None) == a
  {
    EmptyObjectIsIdentity(a);
  }

  /** Capping after every merge instead of once at the end. */
  function CappedEachStep(results: seq<Json>, limit: nat): Json {
    if results == [] then Obj(map[])
    else if |results| == 1 then Capped(results[0], limit)
    else Capped(Merged(CappedEachStep(results[..|results| - 1], limit), results[|results| - 1]), limit)
  }

  lemma {:induction false} CapOnceIsEnough(results: seq<Json>, limit: nat)
    ensures CappedEachStep(results, limit) == MergedResults(results, Some(limit))
  {
    if |results| > 1 {
      CapOnceIsEnough(results[..|results| - 1], limit);
      CappingEarlyIsHarmless(Reduced(results[..|results| - 1]), results[|results| - 1], limit);
    } else if results == [] {
      assert Capped(Obj(map[]), limit).fields == map[];
    }
  }
}
