/** What every result of GetPropertyNames satisfies, and when there is only one. */
module PropertyNamesTheorems {
  import opened Decimal
  import opened Options
  import opened PropertyNames
  import opened Sorting

  // ---- Contents ----

  /** Some own property has this name and passes the filters. */
  predicate Offers(own: seq<Property>, x: Name, q: Query) {
    exists i | 0 <= i < |own| :: own[i].name == x && Passes(own[i], q)
  }

  predicate OfferedOnChain(obj: Object, x: Name, q: Query)
    decreases obj
  {
    Offers(obj.own, x, q) || (!Last(obj, q) && OfferedOnChain(obj.prototype.value, x, q))
  }

  /** How often `x` occurs. */
  function Count(xs: seq<Name>, x: Name): nat {
    multiset(xs)[x]
  }

  lemma CountAppend(a: seq<Name>, b: seq<Name>, x: Name)
    ensures Count(a + b, x) == Count(a, x) + Count(b, x)
    ensures Count(a, x) > 0 <==> x in a
    ensures Count([x], x) == 1 && Count([], x) == 0
    ensures forall y | y != x :: Count([y], x) == 0
  {
  }

  lemma CountSplit(xs: seq<Name>, n: nat, x: Name)
    requires n <= |xs|
    ensures Count(xs, x) == Count(xs[..n], x) + Count(xs[n..], x)
    ensures n == |xs| ==> Count(xs[n..], x) == 0
  {
    assert xs == xs[..n] + xs[n..];
  }

  lemma OffersLast(own: seq<Property>, x: Name, q: Query)
    requires own != []
    ensures var p := own[|own| - 1];
            Offers(own, x, q) <==> Offers(own[..|own| - 1], x, q) || (p.name == x && Passes(p, q))
  {
    var init := own[..|own| - 1];
    if Offers(init, x, q) {
      var i :| 0 <= i < |init| && init[i].name == x && Passes(init[i], q);
      assert own[i] == init[i];
    }
    if Offers(own, x, q) {
      var i :| 0 <= i < |own| && own[i].name == x && Passes(own[i], q);
      if i < |init| {
        assert init[i] == own[i];
      }
    }
  }

  lemma {:induction false} NewNamesOnce(own: seq<Property>, seen: set<Name>, q: Query, x: Name)
    ensures Count(NewNames(own, seen, q), x) == if x !in seen && Offers(own, x, q) then 1 else 0
  {
    if own != [] {
      var init, p := own[..|own| - 1], own[|own| - 1];
      var before := NewNames(init, seen, q);
      var added := Added(p, seen + SetOf(before), q);
      NewNamesOnce(init, seen, q, x);
      OffersLast(own, x, q);
      CountAppend(before, added, x);
      assert x in SetOf(before) <==> x in before;
    }
  }

  lemma OneMoreCount(xs: seq<Name>, y: Name, x: Name)
    ensures Count(xs + [y], x) == Count(xs, x) + if y == x then 1 else 0
  {
  }

  lemma OneMoreOfKind(xs: seq<Name>, y: Name, kind: Kind, x: Name)
    requires Count(OfKind(xs, kind), x) == if KindOf(x) == kind then Count(xs, x) else 0
    ensures Count(OfKind(xs + [y], kind), x) == if KindOf(x) == kind then Count(xs + [y], x) else 0
  {
    OneMoreName(xs, y, kind);
    OneMoreCount(xs, y, x);
    if KindOf(y) == kind {
      OneMoreCount(OfKind(xs, kind), y, x);
    } else {
      assert OfKind(xs, kind) + [] == OfKind(xs, kind);
    }
  }

  lemma {:induction false} KindCount(xs: seq<Name>, kind: Kind, x: Name)
    ensures Count(OfKind(xs, kind), x) == if KindOf(x) == kind then Count(xs, x) else 0
  {
    if xs != [] {
      var init, last := xs[..|xs| - 1], xs[|xs| - 1];
      KindCount(init, kind, x);
      OneMoreOfKind(init, last, kind, x);
      assert xs == init + [last];
    }
  }

  lemma LevelPermutes(level: seq<Name>, news: seq<Name>, x: Name)
    requires Level(level, news)
    ensures Count(level, x) == Count(news, x)
  {
    var k := |OfKind(news, IndexKind)|;
    KindCount(news, IndexKind, x);
    KindCount(news, StringKind, x);
    KindCount(news, SymbolKind, x);
    CountSplit(level, k, x);
    CountAppend(OfKind(news, StringKind), OfKind(news, SymbolKind), x);
    assert Count(level[..k], x) == Count(OfKind(news, IndexKind), x);
  }

  lemma FirstLevelCount(level: seq<Name>, own: seq<Property>, seen: set<Name>, q: Query, x: Name)
    requires Level(level, NewNames(own, seen, q))
    ensures Count(level, x) == if x !in seen && Offers(own, x, q) then 1 else 0
    ensures x in SetOf(NewNames(own, seen, q)) <==> x !in seen && Offers(own, x, q)
  {
    var news := NewNames(own, seen, q);
    LevelPermutes(level, news, x);
    NewNamesOnce(own, seen, q, x);
    CountAppend(news, [], x);
  }

  /** A key is in the result exactly when some object on the chain has an own property with that key that
      passes the filters as coded, and then it is there once. */
  lemma {:induction false} EachOfferedKeyOnce(obj: Object, q: Query, seen: set<Name>, raw: seq<Name>, x: Name)
    requires Result(obj, q, seen, raw)
    ensures Count(raw, x) == if x !in seen && OfferedOnChain(obj, x, q) then 1 else 0
    decreases obj
  {
    var names := SetOf(NewNames(obj.own, seen, q));
    var n := |NewNames(obj.own, seen, q)|;
    CountSplit(raw, n, x);
    FirstLevelCount(raw[..n], obj.own, seen, q, x);
    if !Last(obj, q) {
      EachOfferedKeyOnce(obj.prototype.value, q, seen + names, raw[n..], x);
    }
  }

  // ---- One result or several ----

  /** Different names never denote the same index. */
  predicate OneSpelling(xs: seq<Name>) {
    DistinctKeys(OfKind(xs, IndexKind), IndexOf)
  }

  /** On no object of the chain do two new names denote the same index. */
  predicate NoTies(obj: Object, q: Query, seen: set<Name>)
    decreases obj
  {
    var news := NewNames(obj.own, seen, q);
    OneSpelling(news) && (!Last(obj, q) ==> NoTies(obj.prototype.value, q, seen + SetOf(news)))
  }

  lemma LevelUnique(a: seq<Name>, b: seq<Name>, news: seq<Name>)
    requires Level(a, news) && Level(b, news) && OneSpelling(news)
    ensures a == b
  {
    var k := |OfKind(news, IndexKind)|;
    DistinctKeysPermute(OfKind(news, IndexKind), a[..k]);
    SortUnique(a[..k], b[..k], IndexOf);
    assert a == a[..k] + a[k..] && b == b[..k] + b[k..];
  }

  lemma DistinctKeysPermute(xs: seq<Name>, ys: seq<Name>)
    requires multiset(xs) == multiset(ys) && DistinctKeys(xs, IndexOf)
    ensures DistinctKeys(ys, IndexOf)
  {
    forall x, y | x in ys && y in ys && IndexOf(x) == IndexOf(y)
      ensures x == y
    {
      assert x in multiset(xs) && y in multiset(xs);
    }
  }

  lemma {:induction false} ResultUnique(obj: Object, q: Query, seen: set<Name>, a: seq<Name>, b: seq<Name>)
    requires Result(obj, q, seen, a) && Result(obj, q, seen, b) && NoTies(obj, q, seen)
    ensures a == b
    decreases obj
  {
    var n := |NewNames(obj.own, seen, q)|;
    var news := NewNames(obj.own, seen, q);
    LevelUnique(a[..n], b[..n], news);
    assert a == a[..n] + a[n..] && b == b[..n] + b[n..];
    if !Last(obj, q) {
      ResultUnique(obj.prototype.value, q, seen + SetOf(news), a[n..], b[n..]);
    }
  }

  // The level that a sorted order of the new indices makes.
  function LevelFrom(sorted: seq<Name>, news: seq<Name>): seq<Name> {
    sorted + OfKind(news, StringKind) + OfKind(news, SymbolKind)
  }

  function SomeLevel(news: seq<Name>): (level: seq<Name>)
    ensures |level| == |news| && Level(level, news)
  {
    var sorted := Sorted(OfKind(news, IndexKind), IndexOf);
    SortedSorts(OfKind(news, IndexKind), IndexOf);
    LevelOf(sorted, news);
    LevelFrom(sorted, news)
  }

  lemma {:induction false} SomeRest(obj: Object, q: Query, names: set<Name>) returns (rest: seq<Name>)
    ensures Rest(obj, q, names, rest)
    decreases obj
  {
    rest := [];
    if !Last(obj, q) {
      var self := obj.prototype.value;
      var news := NewNames(self.own, names, q);
      var more := SomeRest(self, q, names + SetOf(news));
      OneMoreLevel(self, q, names, SomeLevel(news), more);
      rest := SomeLevel(news) + more;
    }
  }

  lemma TwoLevels(news: seq<Name>) returns (a: seq<Name>, b: seq<Name>)
    requires !OneSpelling(news)
    ensures |a| == |b| == |news| && Level(a, news) && Level(b, news) && a != b
  {
    var s, t := TwoSorts(OfKind(news, IndexKind), IndexOf);
    LevelOf(s, news);
    LevelOf(t, news);
    SameSize(s, t);
    a, b := LevelFrom(s, news), LevelFrom(t, news);
    assert a[..|s|] == s && b[..|t|] == t;
  }

  lemma {:induction false} TwoResults(obj: Object, q: Query, seen: set<Name>) returns (a: seq<Name>, b: seq<Name>)
    requires !NoTies(obj, q, seen)
    ensures Result(obj, q, seen, a) && Result(obj, q, seen, b) && a != b
    decreases obj
  {
    var news := NewNames(obj.own, seen, q);
    var c, d, e, f: seq<Name>;
    if !OneSpelling(news) {
      c, d := TwoLevels(news);
      e := SomeRest(obj, q, seen + SetOf(news));
      f := e;
    } else {
      c := SomeLevel(news);
      d := c;
      e, f := TwoResults(obj.prototype.value, q, seen + SetOf(news));
    }
    OneMoreLevel(obj, q, seen, c, e);
    OneMoreLevel(obj, q, seen, d, f);
    a, b := c + e, d + f;
    assert a[..|news|] == c && b[..|news|] == d && a[|news|..] == e && b[|news|..] == f;
  }

  ghost predicate ResultIsDetermined(obj: Object, q: Query) {
    forall a, b | Result(obj, q, {}, a) && Result(obj, q, {}, b) :: a == b
  }

  /** The result does not depend on the sorting algorithm exactly when no object brings two new names for
      one index. */
  lemma DeterminedIff(obj: Object, q: Query)
    ensures ResultIsDetermined(obj, q) <==> NoTies(obj, q, {})
  {
    if NoTies(obj, q, {}) {
      forall a, b | Result(obj, q, {}, a) && Result(obj, q, {}, b)
        ensures a == b
      {
        ResultUnique(obj, q, {}, a, b);
      }
    } else {
      var a, b := TwoResults(obj, q, {});
    }
  }

  /** The engine's convention: one value stands for each array index among an object's own names. */
  predicate OneValuePerIndex(obj: Object)
    decreases obj
  {
    && (forall p, r {:trigger IndexOf(p.name), IndexOf(r.name)} | p in obj.own && r in obj.own ::
          KindOf(p.name) == KindOf(r.name) == IndexKind && IndexOf(p.name) == IndexOf(r.name) ==> p.name == r.name)
    && (obj.prototype.Some? ==> OneValuePerIndex(obj.prototype.value))
  }

  lemma NewNamesAreOwn(own: seq<Property>, seen: set<Name>, q: Query, x: Name)
    requires x in OfKind(NewNames(own, seen, q), IndexKind)
    ensures exists p :: p in own && p.name == x && KindOf(p.name) == IndexKind
  {
    var news := NewNames(own, seen, q);
    OfKindMembers(news, IndexKind, x);
    NewNamesOnce(own, seen, q, x);
    CountAppend(news, [], x);
    var i :| 0 <= i < |own| && own[i].name == x && Passes(own[i], q);
    assert own[i] in own;
  }

  /** Under that convention there are no ties, so that the result is determined for every query. */
  lemma {:induction false} CanonicalNamesNeverTie(obj: Object, q: Query, seen: set<Name>)
    requires OneValuePerIndex(obj)
    ensures NoTies(obj, q, seen)
    decreases obj
  {
    var news := NewNames(obj.own, seen, q);
    var indices := OfKind(news, IndexKind);
    forall x, y | x in indices && y in indices && IndexOf(x) == IndexOf(y)
      ensures x == y
    {
      NewNamesAreOwn(obj.own, seen, q, x);
      NewNamesAreOwn(obj.own, seen, q, y);
    }
    if !Last(obj, q) {
      CanonicalNamesNeverTie(obj.prototype.value, q, seen + SetOf(news));
    }
  }

  // ---- Conversion to strings ----

  predicate Distinct(xs: seq<Name>) {
    forall i, j | 0 <= i < j < |xs| :: xs[i] != xs[j]
  }

  lemma OnceIsDistinct(xs: seq<Name>)
    requires forall x :: Count(xs, x) <= 1
    ensures Distinct(xs)
  {
    forall i, j | 0 <= i < j < |xs|
      ensures xs[i] != xs[j]
    {
      assert xs == xs[..j] + xs[j..] && xs[i] == xs[..j][i] && xs[j] == xs[j..][0];
      CountAppend(xs[..j], xs[j..], xs[j]);
      CountAppend(xs[j..], [], xs[j]);
    }
  }

  lemma ConversionMerges(x: Name, y: Name)
    requires x != y
    ensures Convert(x, ConvertToString) == Convert(y, ConvertToString) <==>
            KindOf(x) == KindOf(y) == IndexKind && IndexOf(x) == IndexOf(y)
  {
    forall n: nat | n <= MAX_INDEX
      ensures StringIndex(Numeral(n)) == Some(n)
    {
      NumeralIsIndex(n);
    }
  }

  lemma {:induction false} OfKindMembers(xs: seq<Name>, kind: Kind, x: Name)
    ensures x in OfKind(xs, kind) <==> x in xs && KindOf(x) == kind
  {
    if xs != [] {
      OfKindMembers(xs[..|xs| - 1], kind, x);
      assert xs == xs[..|xs| - 1] + [xs[|xs| - 1]];
    }
  }

  lemma ResultIsDistinct(obj: Object, q: Query, seen: set<Name>, raw: seq<Name>)
    requires Result(obj, q, seen, raw)
    ensures Distinct(raw)
  {
    forall x
      ensures Count(raw, x) <= 1
    {
      EachOfferedKeyOnce(obj, q, seen, raw, x);
    }
    OnceIsDistinct(raw);
  }

  lemma ConversionMergesAt(raw: seq<Name>, i: nat, j: nat)
    requires i < |raw| && j < |raw| && raw[i] != raw[j]
    ensures Converted(raw, ConvertToString)[i] == Converted(raw, ConvertToString)[j] <==>
            raw[i] in OfKind(raw, IndexKind) && raw[j] in OfKind(raw, IndexKind) && IndexOf(raw[i]) == IndexOf(raw[j])
  {
    ConversionMerges(raw[i], raw[j]);
    OfKindMembers(raw, IndexKind, raw[i]);
    OfKindMembers(raw, IndexKind, raw[j]);
  }

  /** Two different keys on the chain are offered for one index. */
  ghost predicate TwoSpellings(obj: Object, q: Query) {
    exists x, y {:trigger OfferedOnChain(obj, x, q), OfferedOnChain(obj, y, q)} ::
      && x != y && OfferedOnChain(obj, x, q) && OfferedOnChain(obj, y, q)
      && KindOf(x) == KindOf(y) == IndexKind && IndexOf(x) == IndexOf(y)
  }

  lemma OfferedAreInResult(obj: Object, q: Query, raw: seq<Name>, x: Name)
    requires Result(obj, q, {}, raw)
    ensures x in OfKind(raw, IndexKind) <==> OfferedOnChain(obj, x, q) && KindOf(x) == IndexKind
  {
    EachOfferedKeyOnce(obj, q, {}, raw, x);
    CountAppend(raw, [], x);
    OfKindMembers(raw, IndexKind, x);
  }

  lemma OneSpellingIff(obj: Object, q: Query, raw: seq<Name>)
    requires Result(obj, q, {}, raw)
    ensures OneSpelling(raw) <==> !TwoSpellings(obj, q)
  {
    forall x
      ensures x in OfKind(raw, IndexKind) <==> OfferedOnChain(obj, x, q) && KindOf(x) == IndexKind
    {
      OfferedAreInResult(obj, q, raw, x);
    }
    if TwoSpellings(obj, q) {
      var x, y :| x != y && OfferedOnChain(obj, x, q) && OfferedOnChain(obj, y, q) &&
        KindOf(x) == KindOf(y) == IndexKind && IndexOf(x) == IndexOf(y);
      assert x in OfKind(raw, IndexKind) && y in OfKind(raw, IndexKind);
    }
  }

  /** With indices converted to strings the array has no repeated key exactly when no index is offered in
      two spellings anywhere on the chain. */
  lemma ConvertedKeysDistinctIff(obj: Object, q: Query, propertyNames: seq<Name>)
    requires PropertyNamesOf(obj, q, ConvertToString, propertyNames)
    ensures Distinct(propertyNames) <==> !TwoSpellings(obj, q)
  {
    var raw :| Result(obj, q, {}, raw) && propertyNames == Converted(raw, ConvertToString);
    ResultIsDistinct(obj, q, {}, raw);
    ConvertedDistinctIff(raw);
    OneSpellingIff(obj, q, raw);
  }

  lemma TiesMerge(raw: seq<Name>)
    requires !OneSpelling(raw)
    ensures !Distinct(Converted(raw, ConvertToString))
  {
    var indices, out := OfKind(raw, IndexKind), Converted(raw, ConvertToString);
    var x, y :| x in indices && y in indices && IndexOf(x) == IndexOf(y) && x != y;
    OfKindMembers(raw, IndexKind, x);
    OfKindMembers(raw, IndexKind, y);
    var i :| 0 <= i < |raw| && raw[i] == x;
    var j :| 0 <= j < |raw| && raw[j] == y;
    ConversionMergesAt(raw, i, j);
    assert out[i] == out[j];
  }

  lemma ConvertedDistinctIff(raw: seq<Name>)
    requires Distinct(raw)
    ensures Distinct(Converted(raw, ConvertToString)) <==> OneSpelling(raw)
  {
    var out := Converted(raw, ConvertToString);
    if !Distinct(out) {
      var i, j :| 0 <= i < j < |out| && out[i] == out[j];
      ConversionMergesAt(raw, i, j);
    }
    if !OneSpelling(raw) {
      TiesMerge(raw);
    }
  }

  // ---- Own keys ----

  function OwnQuery(q: Query): Query {
    q.(mode := OwnOnly)
  }

  lemma {:induction false} ModeDoesNotFilter(own: seq<Property>, seen: set<Name>, q: Query)
    ensures NewNames(own, seen, OwnQuery(q)) == NewNames(own, seen, q)
  {
    if own != [] {
      ModeDoesNotFilter(own[..|own| - 1], seen, q);
    }
  }

  lemma OwnResult(obj: Object, q: Query, own: seq<Name>)
    ensures var news := NewNames(obj.own, {}, q);
            Result(obj, OwnQuery(q), {}, own) <==> |own| == |news| && Level(own, news)
  {
    ModeDoesNotFilter(obj.own, {}, q);
    assert own[..|own|] == own;
  }

  /** The own keys come first: every result with prototypes starts with a result of the own keys, and when
      there are no ties with the only one there is. */
  lemma OwnKeysComeFirst(obj: Object, q: Query, raw: seq<Name>)
    requires Result(obj, q, {}, raw)
    ensures var news := NewNames(obj.own, {}, q);
            && |news| <= |raw|
            && Result(obj, OwnQuery(q), {}, raw[..|news|])
            && (OneSpelling(news) ==> forall own | Result(obj, OwnQuery(q), {}, own) :: own == raw[..|news|])
  {
    var news := NewNames(obj.own, {}, q);
    OwnResult(obj, q, raw[..|news|]);
    if OneSpelling(news) {
      forall own | Result(obj, OwnQuery(q), {}, own)
        ensures own == raw[..|news|]
      {
        OwnResult(obj, q, own);
        LevelUnique(raw[..|news|], own, news);
      }
    }
  }

  /** In each object's part the indices ascend strictly. */
  lemma IndicesAscendStrictly(obj: Object, q: Query, seen: set<Name>, raw: seq<Name>)
    requires Result(obj, q, seen, raw)
    ensures var news := NewNames(obj.own, seen, q);
            var k := |OfKind(news, IndexKind)|;
            && k <= |raw|
            && (OneSpelling(news) ==> forall i, j | 0 <= i < j < k :: IndexOf(raw[i]) < IndexOf(raw[j]))
  {
    var news := NewNames(obj.own, seen, q);
    var k := |OfKind(news, IndexKind)|;
    KindsPartition(news);
    ResultIsDistinct(obj, q, seen, raw);
    if OneSpelling(news) {
      var sorted := raw[..|news|][..k];
      DistinctKeysPermute(OfKind(news, IndexKind), sorted);
      forall i, j | 0 <= i < j < k
        ensures IndexOf(raw[i]) < IndexOf(raw[j])
      {
        assert sorted[i] == raw[i] && sorted[j] == raw[j] && raw[i] != raw[j];
        assert IndexOf(sorted[i]) <= IndexOf(sorted[j]);
      }
    }
  }

  // ---- What a caller gets ----

  lemma InResultIff(obj: Object, q: Query, raw: seq<Name>)
    requires Result(obj, q, {}, raw)
    ensures forall y :: y in raw <==> OfferedOnChain(obj, y, q)
  {
    forall y
      ensures y in raw <==> OfferedOnChain(obj, y, q)
    {
      EachOfferedKeyOnce(obj, q, {}, raw, y);
      CountAppend(raw, [], y);
    }
  }

  lemma InConvertedIff(raw: seq<Name>, conversion: KeyConversionMode, x: Name)
    ensures x in Converted(raw, conversion) <==> exists y :: y in raw && Convert(y, conversion) == x
  {
    if x in Converted(raw, conversion) {
      var i :| 0 <= i < |raw| && Convert(raw[i], conversion) == x;
      assert raw[i] in raw;
    }
    if y :| y in raw && Convert(y, conversion) == x {
      var i :| 0 <= i < |raw| && raw[i] == y;
      assert Converted(raw, conversion)[i] == x;
    }
  }

  /** Exactly the offered keys, converted. */
  lemma KeysReturned(obj: Object, q: Query, conversion: KeyConversionMode, propertyNames: seq<Name>, x: Name)
    requires PropertyNamesOf(obj, q, conversion, propertyNames)
    ensures x in propertyNames <==> exists y :: OfferedOnChain(obj, y, q) && Convert(y, conversion) == x
  {
    var raw :| Result(obj, q, {}, raw) && propertyNames == Converted(raw, conversion);
    InResultIff(obj, q, raw);
    InConvertedIff(raw, conversion, x);
  }

  /** And without conversion each of them once. */
  lemma KeysReturnedOnce(obj: Object, q: Query, conversion: KeyConversionMode, propertyNames: seq<Name>, x: Name)
    requires PropertyNamesOf(obj, q, conversion, propertyNames) && conversion != ConvertToString
    ensures Count(propertyNames, x) == if OfferedOnChain(obj, x, q) then 1 else 0
  {
    var raw :| Result(obj, q, {}, raw) && propertyNames == Converted(raw, conversion);
    KeptAsTheyAre(raw, conversion);
    EachOfferedKeyOnce(obj, q, {}, raw, x);
  }

  // ---- One array or several ----

  /** With conversion, what a tie leaves open does not show: tied names become the same string. */
  lemma {:induction false} ConvertedResultUnique(obj: Object, q: Query, seen: set<Name>, a: seq<Name>, b: seq<Name>)
    requires Result(obj, q, seen, a) && Result(obj, q, seen, b)
    ensures Converted(a, ConvertToString) == Converted(b, ConvertToString)
    decreases obj
  {
    var news := NewNames(obj.own, seen, q);
    var n := |news|;
    ConvertedLevelUnique(a[..n], b[..n], news);
    if !Last(obj, q) {
      ConvertedResultUnique(obj.prototype.value, q, seen + SetOf(news), a[n..], b[n..]);
    }
    ConvertedSplit(a, n);
    ConvertedSplit(b, n);
  }

  lemma ConvertedSplit(xs: seq<Name>, n: nat)
    requires n <= |xs|
    ensures Converted(xs, ConvertToString) == Converted(xs[..n], ConvertToString) + Converted(xs[n..], ConvertToString)
  {
  }

  lemma IndexConversion(x: Name)
    requires KindOf(x) == IndexKind
    ensures IndexOf(x) >= 0 && Convert(x, ConvertToString) == Str(Numeral(IndexOf(x)))
  {
  }

  lemma SameIndicesConvertAlike(a: seq<Name>, b: seq<Name>)
    requires |a| == |b|
    requires forall i | 0 <= i < |a| :: KindOf(a[i]) == KindOf(b[i]) == IndexKind && IndexOf(a[i]) == IndexOf(b[i])
    ensures Converted(a, ConvertToString) == Converted(b, ConvertToString)
  {
    forall i | 0 <= i < |a|
      ensures Convert(a[i], ConvertToString) == Convert(b[i], ConvertToString)
    {
      IndexConversion(a[i]);
      IndexConversion(b[i]);
    }
  }

  lemma ConvertedLevelUnique(a: seq<Name>, b: seq<Name>, news: seq<Name>)
    requires Level(a, news) && Level(b, news)
    ensures Converted(a, ConvertToString) == Converted(b, ConvertToString)
  {
    var indices := OfKind(news, IndexKind);
    var k := |indices|;
    SortedKeysUnique(a[..k], b[..k], IndexOf);
    PermutedKind(indices, a[..k], news);
    PermutedKind(indices, b[..k], news);
    SameIndicesConvertAlike(a[..k], b[..k]);
    ConvertedSplit(a, k);
    ConvertedSplit(b, k);
  }

  lemma PermutedKind(indices: seq<Name>, sorted: seq<Name>, news: seq<Name>)
    requires indices == OfKind(news, IndexKind) && multiset(sorted) == multiset(indices)
    ensures forall i | 0 <= i < |sorted| :: KindOf(sorted[i]) == IndexKind
  {
    OfKindOnly(news, IndexKind);
    forall i | 0 <= i < |sorted|
      ensures KindOf(sorted[i]) == IndexKind
    {
      assert sorted[i] in multiset(indices);
    }
  }

  ghost predicate ArrayIsDetermined(obj: Object, q: Query, conversion: KeyConversionMode) {
    forall a, b | PropertyNamesOf(obj, q, conversion, a) && PropertyNamesOf(obj, q, conversion, b) :: a == b
  }

  lemma KeptAsTheyAre(raw: seq<Name>, conversion: KeyConversionMode)
    requires conversion != ConvertToString
    ensures Converted(raw, conversion) == raw
  {
  }

  /** The array does not depend on the sorting algorithm exactly when indices are converted to strings or no
      object brings two new names for one index. */
  lemma ArrayDeterminedIff(obj: Object, q: Query, conversion: KeyConversionMode)
    ensures ArrayIsDetermined(obj, q, conversion) <==> conversion == ConvertToString || NoTies(obj, q, {})
  {
    if conversion == ConvertToString || NoTies(obj, q, {}) {
      forall a, b | PropertyNamesOf(obj, q, conversion, a) && PropertyNamesOf(obj, q, conversion, b)
        ensures a == b
      {
        var c :| Result(obj, q, {}, c) && a == Converted(c, conversion);
        var d :| Result(obj, q, {}, d) && b == Converted(d, conversion);
        if conversion == ConvertToString {
          ConvertedResultUnique(obj, q, {}, c, d);
        } else {
          ResultUnique(obj, q, {}, c, d);
        }
      }
    } else {
      var c, d := TwoResults(obj, q, {});
      KeptAsTheyAre(c, conversion);
      KeptAsTheyAre(d, conversion);
      assert PropertyNamesOf(obj, q, conversion, c) && PropertyNamesOf(obj, q, conversion, d);
    }
  }

  /** On objects that keep to the engine's convention two calls return the same array. */
  lemma SameArrayEveryTime(obj: Object, q: Query, conversion: KeyConversionMode)
    requires OneValuePerIndex(obj)
    ensures ArrayIsDetermined(obj, q, conversion)
  {
    CanonicalNamesNeverTie(obj, q, {});
    ArrayDeterminedIff(obj, q, conversion);
  }

  // ---- An object that breaks the convention ----

  const ALL_OWN := Query(OwnOnly, PropertyFilter(false, false, false, false, false), IncludeIndices)

  const TWICE_ONE := Object([Property(Num(1), true, true, true), Property(Str(['1']), true, true, true)], None)

  lemma OneInTwoSpellings()
    ensures TryIndex(Num(1)) == TryIndex(Str(['1'])) == Some(1)
  {
    assert Numeral(1) == ['1'];
    NumeralIsIndex(1);
  }

  lemma TwoNew(p: Property, r: Property, q: Query)
    requires Passes(p, q) && Passes(r, q) && p.name != r.name
    ensures NewNames([p, r], {}, q) == [p.name, r.name]
  {
    assert [p, r][..1] == [p] && [p][..0] == [];
    assert NewNames([p], {}, q) == [p.name];
  }

  lemma TwoIndices(x: Name, y: Name)
    requires KindOf(x) == KindOf(y) == IndexKind
    ensures OfKind([x, y], IndexKind) == [x, y]
  {
    assert [x, y][..1] == [x] && [x][..0] == [];
    assert OfKind([x], IndexKind) == [x];
  }

  lemma TiesAreNotDistinct<T>(x: T, y: T, key: T -> int)
    requires x != y && key(x) == key(y)
    ensures !DistinctKeys([x, y], key)
  {
    var xs := [x, y];
    assert xs[0] in xs && xs[1] in xs;
  }

  lemma TwiceOneTies()
    ensures !NoTies(TWICE_ONE, ALL_OWN, {})
  {
    OneInTwoSpellings();
    TwoNew(TWICE_ONE.own[0], TWICE_ONE.own[1], ALL_OWN);
    TwoIndices(Num(1), Str(['1']));
    TiesAreNotDistinct(Num(1), Str(['1']), IndexOf);
  }

  lemma TwiceOneHasTwoSpellings()
    ensures TwoSpellings(TWICE_ONE, ALL_OWN)
  {
    OneInTwoSpellings();
    assert TWICE_ONE.own[0].name == Num(1) && TWICE_ONE.own[1].name == Str(['1']);
    assert OfferedOnChain(TWICE_ONE, Num(1), ALL_OWN) && OfferedOnChain(TWICE_ONE, Str(['1']), ALL_OWN);
  }

  /** Under two names for the index 1 the sort decides when numbers are kept, and the array repeats a key
      when they are converted. */
  lemma TwoNamesForOneIndex()
    ensures !ArrayIsDetermined(TWICE_ONE, ALL_OWN, KeepNumbers)
    ensures forall a | PropertyNamesOf(TWICE_ONE, ALL_OWN, ConvertToString, a) :: !Distinct(a)
  {
    TwiceOneTies();
    ArrayDeterminedIff(TWICE_ONE, ALL_OWN, KeepNumbers);
    TwiceOneHasTwoSpellings();
    forall a | PropertyNamesOf(TWICE_ONE, ALL_OWN, ConvertToString, a)
      ensures !Distinct(a)
    {
      ConvertedKeysDistinctIff(TWICE_ONE, ALL_OWN, a);
    }
  }
}
