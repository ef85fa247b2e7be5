/** `Object::GetPropertyNames` and `Object::GetOwnPropertyNames` of src/api-data.cc. The engine's
    enumeration of own properties is a given sequence; the prototype chain ends. */
module PropertyNames {
  import opened Decimal
  import opened Options
  import opened Sorting

  /** A property name as the engine passes it. */
  datatype Name = Symbol(id: nat) | Str(text: string) | Num(n: nat)

  datatype Property = Property(name: Name, writable: bool, enumerable: bool, configurable: bool)

  datatype Object = Object(own: seq<Property>, prototype: Option<Object>)

  datatype KeyCollectionMode = OwnOnly | IncludePrototypes

  datatype PropertyFilter = PropertyFilter(
    onlyWritable: bool,
    onlyEnumerable: bool,
    onlyConfigurable: bool,
    skipStrings: bool,
    skipSymbols: bool)

  datatype IndexFilter = IncludeIndices | SkipIndices

  datatype KeyConversionMode = ConvertToString | KeepNumbers | NoNumbers

  datatype Query = Query(mode: KeyCollectionMode, filter: PropertyFilter, indexFilter: IndexFilter)

  datatype Kind = IndexKind | StringKind | SymbolKind

  /** `tryToUseAsIndexProperty`. */
  function TryIndex(x: Name): Option<nat> {
    match x
    case Symbol(_) => None
    case Str(text) => StringIndex(text)
    case Num(n) => if n <= MAX_INDEX then Some(n) else None
  }

  function KindOf(x: Name): Kind {
    if x.Symbol? then SymbolKind else if TryIndex(x).Some? then IndexKind else StringKind
  }

  // The number an index is compared by.
  function IndexOf(x: Name): int {
    match TryIndex(x)
    case None => -1
    case Some(n) => n
  }

  predicate AttributesPass(p: Property, filter: PropertyFilter) {
    && (filter.onlyWritable ==> p.writable)
    && (filter.onlyEnumerable ==> p.enumerable)
    && (filter.onlyConfigurable ==> p.configurable)
  }

  /** The filters as coded: the attributes of a symbol are not looked at. */
  predicate Passes(p: Property, q: Query) {
    match KindOf(p.name)
    case SymbolKind => !q.filter.skipSymbols
    case StringKind => AttributesPass(p, q.filter) && !q.filter.skipStrings
    case IndexKind => AttributesPass(p, q.filter) && q.indexFilter == IncludeIndices
  }

  // ---- The specification ----

  /** What one property adds to the names `seen`. */
  function Added(p: Property, seen: set<Name>, q: Query): seq<Name> {
    if Passes(p, q) && p.name !in seen then [p.name] else []
  }

  /** The names that properties add to those `seen`, in enumeration order. */
  function NewNames(own: seq<Property>, seen: set<Name>, q: Query): seq<Name> {
    if own == [] then []
    else
      var before := NewNames(own[..|own| - 1], seen, q);
      before + Added(own[|own| - 1], seen + SetOf(before), q)
  }

  function SetOf(xs: seq<Name>): set<Name> {
    set x | x in xs
  }

  function OfKind(xs: seq<Name>, kind: Kind): seq<Name> {
    if xs == [] then []
    else
      var last := xs[|xs| - 1];
      OfKind(xs[..|xs| - 1], kind) + if KindOf(last) == kind then [last] else []
  }

  lemma {:induction false} OfKindOnly(xs: seq<Name>, kind: Kind)
    ensures forall i | 0 <= i < |OfKind(xs, kind)| :: KindOf(OfKind(xs, kind)[i]) == kind
  {
    if xs != [] {
      OfKindOnly(xs[..|xs| - 1], kind);
    }
  }

  /** What one object contributes: its new indices in some sorted order, then its new strings, then its
      new symbols. */
  predicate Level(level: seq<Name>, news: seq<Name>) {
    var k := |OfKind(news, IndexKind)|;
    && k <= |level|
    && SortOf(level[..k], OfKind(news, IndexKind), IndexOf)
    && level[k..] == OfKind(news, StringKind) + OfKind(news, SymbolKind)
  }

  predicate Last(obj: Object, q: Query) {
    q.mode == OwnOnly || obj.prototype == None
  }

  /** `raw` is a possible result, before indices are converted, from `obj` on along the chain. */
  predicate Result(obj: Object, q: Query, seen: set<Name>, raw: seq<Name>)
    decreases obj
  {
    var news := NewNames(obj.own, seen, q);
    && |news| <= |raw|
    && Level(raw[..|news|], news)
    && if Last(obj, q) then |raw| == |news|
       else Result(obj.prototype.value, q, seen + SetOf(news), raw[|news|..])
  }

  function ToString(x: Name): Name {
    match x
    case Num(n) => Str(Numeral(n))
    case _ => x
  }

  function Convert(x: Name, conversion: KeyConversionMode): Name {
    if conversion == ConvertToString && KindOf(x) == IndexKind then ToString(x) else x
  }

  function Converted(xs: seq<Name>, conversion: KeyConversionMode): seq<Name> {
    seq(|xs|, i requires 0 <= i < |xs| => Convert(xs[i], conversion))
  }

  // ---- The code ----

  /** `pushUniqueValue`. */
  method PushUniqueValue(names: set<Name>, vector: seq<Name>, value: Name)
    returns (names': set<Name>, vector': seq<Name>)
    ensures names' == names + {value}
    ensures vector' == if value in names then vector else vector + [value]
  {
    names', vector' := names, vector;
    if value !in names {
      vector' := vector' + [value];
      names' := names' + {value};
    }
  }

  /** `std::sort` with the comparison by `toUint32`; callers rely on nothing but its contract. */
  method StdSort(xs: seq<Name>) returns (sorted: seq<Name>)
    ensures SortOf(sorted, xs, IndexOf)
  {
    SortedSorts(xs, IndexOf);
    sorted := Sorted(xs, IndexOf);
  }

  lemma OneMoreName(xs: seq<Name>, x: Name, kind: Kind)
    ensures OfKind(xs + [x], kind) == OfKind(xs, kind) + if KindOf(x) == kind then [x] else []
    ensures SetOf(xs + [x]) == SetOf(xs) + {x}
  {
    assert (xs + [x])[..|xs|] == xs;
  }

  // The set and the three vectors hold `news`.
  ghost predicate Collected(news: seq<Name>, names0: set<Name>, names: set<Name>,
                            indexes: seq<Name>, strings: seq<Name>, symbols: seq<Name>)
  {
    && names == names0 + SetOf(news)
    && indexes == OfKind(news, IndexKind)
    && strings == OfKind(news, StringKind)
    && symbols == OfKind(news, SymbolKind)
  }

  function AddedOfKind(p: Property, seen: set<Name>, q: Query, kind: Kind): seq<Name> {
    if KindOf(p.name) == kind then Added(p, seen, q) else []
  }

  lemma CollectedOneMore(p: Property, q: Query, news: seq<Name>, names0: set<Name>, names: set<Name>,
                         indexes: seq<Name>, strings: seq<Name>, symbols: seq<Name>)
    requires Collected(news, names0, names, indexes, strings, symbols)
    ensures Collected(news + Added(p, names, q), names0, names + SetOf(Added(p, names, q)),
                      indexes + AddedOfKind(p, names, q, IndexKind),
                      strings + AddedOfKind(p, names, q, StringKind),
                      symbols + AddedOfKind(p, names, q, SymbolKind))
  {
    if Added(p, names, q) == [] {
      assert news + [] == news && SetOf([]) == {};
    } else {
      OneMoreName(news, p.name, IndexKind);
      OneMoreName(news, p.name, StringKind);
      OneMoreName(news, p.name, SymbolKind);
      assert SetOf([p.name]) == {p.name};
    }
  }

  /** One call of the enumeration callback: a new name that passes goes into one of three vectors. */
  method CollectOne(p: Property, q: Query, names0: set<Name>, indexes0: seq<Name>, strings0: seq<Name>,
                    symbols0: seq<Name>)
    returns (names: set<Name>, indexes: seq<Name>, strings: seq<Name>, symbols: seq<Name>)
    ensures names == names0 + SetOf(Added(p, names0, q))
    ensures indexes == indexes0 + AddedOfKind(p, names0, q, IndexKind)
    ensures strings == strings0 + AddedOfKind(p, names0, q, StringKind)
    ensures symbols == symbols0 + AddedOfKind(p, names0, q, SymbolKind)
  {
    names, indexes, strings, symbols := names0, indexes0, strings0, symbols0;
    var x := p.name;
    if x.Symbol? {
      if !q.filter.skipSymbols {
        names, symbols := PushUniqueValue(names, symbols, x);
      }
      return;
    }
    if q.filter.onlyWritable || q.filter.onlyEnumerable || q.filter.onlyConfigurable {
      if (q.filter.onlyWritable && !p.writable)
         || (q.filter.onlyEnumerable && !p.enumerable)
         || (q.filter.onlyConfigurable && !p.configurable) {
        return;
      }
    }
    if TryIndex(x) == None {
      if !q.filter.skipStrings {
        names, strings := PushUniqueValue(names, strings, x);
        return;
      }
    } else {
      if q.indexFilter != SkipIndices {
        names, indexes := PushUniqueValue(names, indexes, x);
      }
    }
  }

  /** `enumerateObjectOwnProperties` with that callback. */
  method CollectOwn(own: seq<Property>, names0: set<Name>, q: Query)
    returns (names: set<Name>, indexes: seq<Name>, strings: seq<Name>, symbols: seq<Name>)
    ensures Collected(NewNames(own, names0, q), names0, names, indexes, strings, symbols)
  {
    names, indexes, strings, symbols := names0, [], [], [];
    for i := 0 to |own|
      invariant Collected(NewNames(own[..i], names0, q), names0, names, indexes, strings, symbols)
    {
      ghost var news := NewNames(own[..i], names0, q);
      assert own[..i + 1][..i] == own[..i];
      CollectedOneMore(own[i], q, news, names0, names, indexes, strings, symbols);
      assert NewNames(own[..i + 1], names0, q) == news + Added(own[i], names, q);
      names, indexes, strings, symbols := CollectOne(own[i], q, names, indexes, strings, symbols);
    }
    assert own[..|own|] == own;
  }

  // `vector'` is `vector` with `indexes` pushed in some sorted order and `others` pushed as they are.
  ghost predicate Pushed(vector: seq<Name>, indexes: seq<Name>, others: seq<Name>, conversion: KeyConversionMode,
                         vector': seq<Name>)
  {
    exists sorted :: SortOf(sorted, indexes, IndexOf) && vector' == vector + Converted(sorted, conversion) + others
  }

  /** Sorting the new indices of one object and pushing them, as strings if that is asked for. */
  method PushIndices(vector: seq<Name>, indexes: seq<Name>, conversion: KeyConversionMode)
    returns (vector': seq<Name>)
    requires forall x | x in indexes :: KindOf(x) == IndexKind
    ensures Pushed(vector, indexes, [], conversion, vector')
  {
    var xs := StdSort(indexes);
    vector' := vector;
    for i := 0 to |xs|
      invariant vector' == vector + Converted(xs[..i], conversion)
    {
      assert xs[i] in multiset(xs) && xs[i] in indexes;
      assert Converted(xs[..i + 1], conversion) == Converted(xs[..i], conversion) + [Convert(xs[i], conversion)];
      if conversion == ConvertToString {
        vector' := vector' + [ToString(xs[i])];
      } else {
        vector' := vector' + [xs[i]];
      }
    }
    assert xs[..|xs|] == xs && vector' == vector + Converted(xs, conversion) + [];
  }

  /** What a filter refuses is not collected. */
  lemma {:induction false} RefusedKindsAreEmpty(own: seq<Property>, seen: set<Name>, q: Query)
    ensures q.indexFilter == SkipIndices ==> OfKind(NewNames(own, seen, q), IndexKind) == []
    ensures q.filter.skipStrings ==> OfKind(NewNames(own, seen, q), StringKind) == []
    ensures q.filter.skipSymbols ==> OfKind(NewNames(own, seen, q), SymbolKind) == []
  {
    if own != [] {
      var init, p := own[..|own| - 1], own[|own| - 1];
      var before := NewNames(init, seen, q);
      RefusedKindsAreEmpty(init, seen, q);
      if Added(p, seen + SetOf(before), q) == [] {
        assert before + [] == before;
      } else {
        OneMoreName(before, p.name, IndexKind);
        OneMoreName(before, p.name, StringKind);
        OneMoreName(before, p.name, SymbolKind);
      }
    }
  }

  /** One round of the loop after the enumeration: the vectors whose kind is asked for are pushed. */
  method PushLevel(vector: seq<Name>, indexes: seq<Name>, strings: seq<Name>, symbols: seq<Name>, q: Query,
                   conversion: KeyConversionMode)
    returns (vector': seq<Name>)
    requires forall x | x in indexes :: KindOf(x) == IndexKind
    requires q.indexFilter == SkipIndices ==> indexes == []
    requires q.filter.skipStrings ==> strings == []
    requires q.filter.skipSymbols ==> symbols == []
    ensures Pushed(vector, indexes, strings + symbols, conversion, vector')
  {
    vector' := vector;
    if q.indexFilter != SkipIndices {
      vector' := PushIndices(vector', indexes, conversion);
    } else {
      assert SortOf([], indexes, IndexOf) && vector == vector + Converted([], conversion) + [];
    }
    ghost var sorted :| SortOf(sorted, indexes, IndexOf) && vector' == vector + Converted(sorted, conversion) + [];
    if !q.filter.skipStrings {
      vector' := vector' + strings;
    }
    if !q.filter.skipSymbols {
      vector' := vector' + symbols;
    }
    assert vector' == vector + Converted(sorted, conversion) + (strings + symbols);
  }

  lemma OnlyIndicesAreConverted(xs: seq<Name>, conversion: KeyConversionMode)
    requires forall i | 0 <= i < |xs| :: KindOf(xs[i]) != IndexKind
    ensures Converted(xs, conversion) == xs
  {
  }

  lemma Regroup(a: seq<Name>, b: seq<Name>, c: seq<Name>)
    ensures a + (b + c) == a + b + c
  {
  }

  lemma SplitBack(a: seq<Name>, b: seq<Name>)
    ensures (a + b)[..|a|] == a && (a + b)[|a|..] == b
  {
  }

  lemma LevelOf(sorted: seq<Name>, news: seq<Name>)
    requires SortOf(sorted, OfKind(news, IndexKind), IndexOf)
    ensures var level := sorted + OfKind(news, StringKind) + OfKind(news, SymbolKind);
            |level| == |news| && Level(level, news)
  {
    var indices, strings, symbols := OfKind(news, IndexKind), OfKind(news, StringKind), OfKind(news, SymbolKind);
    SameSize(sorted, indices);
    KindsPartition(news);
    Regroup(sorted, strings, symbols);
    SplitBack(sorted, strings + symbols);
  }

  /** What may follow the level of `obj`. */
  predicate Rest(obj: Object, q: Query, names: set<Name>, rest: seq<Name>) {
    if Last(obj, q) then rest == [] else Result(obj.prototype.value, q, names, rest)
  }

  lemma OneMoreLevel(obj: Object, q: Query, seen: set<Name>, level: seq<Name>, rest: seq<Name>)
    requires var news := NewNames(obj.own, seen, q);
             |level| == |news| && Level(level, news) && Rest(obj, q, seen + SetOf(news), rest)
    ensures Result(obj, q, seen, level + rest)
  {
    assert (level + rest)[..|level|] == level && (level + rest)[|level|..] == rest;
  }

  lemma {:induction false} KindsPartition(xs: seq<Name>)
    ensures |OfKind(xs, IndexKind)| + |OfKind(xs, StringKind)| + |OfKind(xs, SymbolKind)| == |xs|
  {
    if xs != [] {
      KindsPartition(xs[..|xs| - 1]);
    }
  }

  // With `raw` collected so far, any result from `self` on completes a result from `obj` on.
  ghost predicate Continues(obj: Object, q: Query, raw: seq<Name>, self: Object, names: set<Name>) {
    forall rest | Result(self, q, names, rest) :: Result(obj, q, {}, raw + rest)
  }

  lemma Continue(obj: Object, q: Query, raw: seq<Name>, self: Object, names: set<Name>, rest: seq<Name>)
    requires Continues(obj, q, raw, self, names) && Result(self, q, names, rest)
    ensures Result(obj, q, {}, raw + rest)
  {
  }

  lemma LevelThenRest(obj: Object, q: Query, raw: seq<Name>, self: Object, names: set<Name>, level: seq<Name>,
                      rest: seq<Name>)
    requires Continues(obj, q, raw, self, names)
    requires var news := NewNames(self.own, names, q);
             |level| == |news| && Level(level, news) && Rest(self, q, names + SetOf(news), rest)
    ensures Result(obj, q, {}, raw + level + rest)
  {
    OneMoreLevel(self, q, names, level, rest);
    Continue(obj, q, raw, self, names, level + rest);
    Regroup(raw, level, rest);
  }

  lemma LevelStep(obj: Object, q: Query, raw: seq<Name>, self: Object, names: set<Name>, level: seq<Name>)
    requires Continues(obj, q, raw, self, names)
    requires var news := NewNames(self.own, names, q); |level| == |news| && Level(level, news)
    ensures Last(self, q) ==> Result(obj, q, {}, raw + level)
    ensures !Last(self, q) ==>
              Continues(obj, q, raw + level, self.prototype.value, names + SetOf(NewNames(self.own, names, q)))
  {
    var names' := names + SetOf(NewNames(self.own, names, q));
    if Last(self, q) {
      LevelThenRest(obj, q, raw, self, names, level, []);
      assert raw + level + [] == raw + level;
    } else {
      forall rest | Result(self.prototype.value, q, names', rest)
        ensures Result(obj, q, {}, raw + level + rest)
      {
        LevelThenRest(obj, q, raw, self, names, level, rest);
      }
    }
  }

  lemma ConvertedLevel(raw: seq<Name>, sorted: seq<Name>, news: seq<Name>, conversion: KeyConversionMode)
    ensures var strings, symbols := OfKind(news, StringKind), OfKind(news, SymbolKind);
            Converted(raw + (sorted + strings + symbols), conversion) ==
            Converted(raw, conversion) + Converted(sorted, conversion) + (strings + symbols)
  {
    OfKindOnly(news, StringKind);
    OfKindOnly(news, SymbolKind);
    OnlyIndicesAreConverted(OfKind(news, StringKind), conversion);
    OnlyIndicesAreConverted(OfKind(news, SymbolKind), conversion);
  }

  /** `propertyNames` is a possible result with its indices converted. */
  ghost predicate PropertyNamesOf(obj: Object, q: Query, conversion: KeyConversionMode, propertyNames: seq<Name>) {
    exists raw :: Result(obj, q, {}, raw) && propertyNames == Converted(raw, conversion)
  }

  // The state of the loop: what was pushed so far, and where the chain goes on.
  ghost predicate Walked(obj: Object, q: Query, conversion: KeyConversionMode, propertyNames: seq<Name>, self: Object,
                         names: set<Name>)
  {
    exists raw :: propertyNames == Converted(raw, conversion) && Continues(obj, q, raw, self, names)
  }

  lemma NothingWalked(obj: Object, q: Query, conversion: KeyConversionMode)
    ensures Walked(obj, q, conversion, [], obj, {})
  {
    forall rest | Result(obj, q, {}, rest)
      ensures Result(obj, q, {}, [] + rest)
    {
      assert [] + rest == rest;
    }
    assert Continues(obj, q, [], obj, {}) && [] == Converted([], conversion);
  }

  lemma RawRound(obj: Object, q: Query, raw: seq<Name>, self: Object, names: set<Name>, news: seq<Name>,
                 sorted: seq<Name>)
    returns (raw': seq<Name>)
    requires Continues(obj, q, raw, self, names) && news == NewNames(self.own, names, q)
    requires SortOf(sorted, OfKind(news, IndexKind), IndexOf)
    ensures raw' == raw + (sorted + OfKind(news, StringKind) + OfKind(news, SymbolKind))
    ensures Last(self, q) ==> Result(obj, q, {}, raw')
    ensures !Last(self, q) ==> Continues(obj, q, raw', self.prototype.value, names + SetOf(news))
  {
    var level := sorted + OfKind(news, StringKind) + OfKind(news, SymbolKind);
    LevelOf(sorted, news);
    LevelStep(obj, q, raw, self, names, level);
    raw' := raw + level;
  }

  lemma OneRound(obj: Object, q: Query, conversion: KeyConversionMode, before: seq<Name>, self: Object, names: set<Name>,
                 news: seq<Name>, after: seq<Name>)
    requires Walked(obj, q, conversion, before, self, names) && news == NewNames(self.own, names, q)
    requires Pushed(before, OfKind(news, IndexKind), OfKind(news, StringKind) + OfKind(news, SymbolKind), conversion,
                    after)
    ensures Last(self, q) ==> PropertyNamesOf(obj, q, conversion, after)
    ensures !Last(self, q) ==> Walked(obj, q, conversion, after, self.prototype.value, names + SetOf(news))
  {
    var raw :| before == Converted(raw, conversion) && Continues(obj, q, raw, self, names);
    var sorted :| SortOf(sorted, OfKind(news, IndexKind), IndexOf) &&
      after == before + Converted(sorted, conversion) + (OfKind(news, StringKind) + OfKind(news, SymbolKind));
    ConvertedLevel(raw, sorted, news, conversion);
    var raw' := RawRound(obj, q, raw, self, names, news, sorted);
    assert after == Converted(raw', conversion);
  }

  /** `Object::GetPropertyNames`. */
  method GetPropertyNames(obj: Object, q: Query, conversion: KeyConversionMode) returns (propertyNames: seq<Name>)
    ensures PropertyNamesOf(obj, q, conversion, propertyNames)
  {
    propertyNames := [];
    var names: set<Name> := {};
    var self := obj;
    NothingWalked(obj, q, conversion);
    while true
      invariant Walked(obj, q, conversion, propertyNames, self, names)
      decreases self
    {
      var indexes, strings, symbols;
      ghost var news := NewNames(self.own, names, q);
      ghost var names0, propertyNames0 := names, propertyNames;
      names, indexes, strings, symbols := CollectOwn(self.own, names, q);
      OfKindOnly(news, IndexKind);
      RefusedKindsAreEmpty(self.own, names0, q);
      propertyNames := PushLevel(propertyNames, indexes, strings, symbols, q, conversion);
      OneRound(obj, q, conversion, propertyNames0, self, names0, news, propertyNames);
      if q.mode == OwnOnly {
        break;
      }
      if self.prototype == None {
        break;
      }
      self := self.prototype.value;
    }
  }

  /** `Object::GetOwnPropertyNames` with explicit filter. */
  method GetOwnPropertyNames(obj: Object, filter: PropertyFilter, conversion: KeyConversionMode)
    returns (propertyNames: seq<Name>)
    ensures PropertyNamesOf(obj, Query(OwnOnly, filter, IncludeIndices), conversion, propertyNames)
  {
    propertyNames := GetPropertyNames(obj, Query(OwnOnly, filter, IncludeIndices), conversion);
  }
}
