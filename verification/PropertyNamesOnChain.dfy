/** The result of GetPropertyNames in terms of the objects themselves: the prototype links, the fields of the
    properties and the flags of the query, without the relation that the code was proved against. */
module PropertyNamesOnChain {
  import opened Decimal
  import opened Options
  import opened PropertyNames
  import opened PropertyNamesTheorems

  // ---- Which keys ----

  /** The object and all objects its prototype links lead to. */
  function Chain(obj: Object): seq<Object>
    decreases obj
  {
    if obj.prototype == None then [obj] else [obj] + Chain(obj.prototype.value)
  }

  /** A number or a canonical numeral below 2^32 - 1. */
  ghost predicate DenotesIndex(x: Name) {
    match x
    case Symbol(_) => false
    case Num(n) => n < 0xFFFF_FFFF
    case Str(text) => exists n: nat :: n < 0xFFFF_FFFF && text == Numeral(n)
  }

  lemma KindIsIndexIff(x: Name)
    ensures KindOf(x) == IndexKind <==> DenotesIndex(x)
  {
    if x.Str? {
      if n: nat :| n < 0xFFFF_FFFF && x.text == Numeral(n) {
        NumeralIsIndex(n);
      }
      if StringIndex(x.text).Some? {
        assert x.text == Numeral(StringIndex(x.text).value);
      }
    }
  }

  /** What the flags ask of a property. Of a symbol nothing but that symbols are not skipped. */
  ghost predicate Wanted(p: Property, q: Query) {
    if p.name.Symbol? then !q.filter.skipSymbols
    else
      && (q.filter.onlyWritable ==> p.writable)
      && (q.filter.onlyEnumerable ==> p.enumerable)
      && (q.filter.onlyConfigurable ==> p.configurable)
      && if DenotesIndex(p.name) then q.indexFilter == IncludeIndices else !q.filter.skipStrings
  }

  lemma WantedIff(p: Property, q: Query)
    ensures Passes(p, q) <==> Wanted(p, q)
  {
    KindIsIndexIff(p.name);
  }

  ghost predicate OwnWanted(own: seq<Property>, x: Name, q: Query) {
    exists i | 0 <= i < |own| :: own[i].name == x && Wanted(own[i], q)
  }

  lemma OffersIff(own: seq<Property>, x: Name, q: Query)
    ensures Offers(own, x, q) <==> OwnWanted(own, x, q)
  {
    forall i | 0 <= i < |own|
      ensures Passes(own[i], q) <==> Wanted(own[i], q)
    {
      WantedIff(own[i], q);
    }
  }

  ghost predicate OnSome(objs: seq<Object>, x: Name, q: Query) {
    exists k | 0 <= k < |objs| :: OwnWanted(objs[k].own, x, q)
  }

  lemma OnSomeSplit(obj: Object, rest: seq<Object>, x: Name, q: Query)
    ensures OnSome([obj] + rest, x, q) <==> OwnWanted(obj.own, x, q) || OnSome(rest, x, q)
  {
    var all := [obj] + rest;
    if OnSome(all, x, q) {
      var k :| 0 <= k < |all| && OwnWanted(all[k].own, x, q);
      assert k > 0 ==> all[k] == rest[k - 1];
    }
    if OnSome(rest, x, q) {
      var k :| 0 <= k < |rest| && OwnWanted(rest[k].own, x, q);
      assert all[k + 1] == rest[k];
    }
    if OwnWanted(obj.own, x, q) {
      assert all[0] == obj;
    }
  }

  lemma {:induction false} OfferedIff(obj: Object, x: Name, q: Query)
    requires q.mode == IncludePrototypes
    ensures OfferedOnChain(obj, x, q) <==> OnSome(Chain(obj), x, q)
    decreases obj
  {
    OffersIff(obj.own, x, q);
    if obj.prototype == None {
      OnSomeSplit(obj, [], x, q);
      assert [obj] + [] == [obj];
    } else {
      OfferedIff(obj.prototype.value, x, q);
      OnSomeSplit(obj, Chain(obj.prototype.value), x, q);
    }
  }

  /** With prototypes, a key is in the array if and only if some object that the prototype links lead to, at
      whatever distance, has an own property with that key that the flags ask for. */
  lemma KeysOnTheChain(obj: Object, q: Query, conversion: KeyConversionMode, propertyNames: seq<Name>, x: Name)
    requires PropertyNamesOf(obj, q, conversion, propertyNames)
    requires q.mode == IncludePrototypes && conversion != ConvertToString
    ensures x in propertyNames <==> OnSome(Chain(obj), x, q)
  {
    KeysReturnedOnce(obj, q, conversion, propertyNames, x);
    CountAppend(propertyNames, [], x);
    OfferedIff(obj, x, q);
  }

  /** For own keys, if and only if the object itself has one. */
  lemma OwnKeysOnly(obj: Object, q: Query, conversion: KeyConversionMode, propertyNames: seq<Name>, x: Name)
    requires PropertyNamesOf(obj, q, conversion, propertyNames)
    requires q.mode == OwnOnly && conversion != ConvertToString
    ensures x in propertyNames <==> OwnWanted(obj.own, x, q)
  {
    KeysReturnedOnce(obj, q, conversion, propertyNames, x);
    CountAppend(propertyNames, [], x);
    OffersIff(obj.own, x, q);
  }

  /** Conversion replaces every index by its numeral and changes nothing else. */
  lemma ConvertedTo(x: Name, conversion: KeyConversionMode)
    ensures conversion != ConvertToString || !DenotesIndex(x) ==> Convert(x, conversion) == x
    ensures conversion == ConvertToString && DenotesIndex(x) ==>
              exists n: nat :: n < 0xFFFF_FFFF && Convert(x, conversion) == Str(Numeral(n)) &&
                               (x == Num(n) || x == Str(Numeral(n)))
  {
    KindIsIndexIff(x);
    if DenotesIndex(x) {
      IndexConversion(x);
      assert TryIndex(x).Some? && TryIndex(x).value < 0xFFFF_FFFF;
    }
  }

  // ---- In which order ----

  predicate Before(xs: seq<Name>, x: Name, y: Name) {
    exists a, b {:trigger xs[a], xs[b]} | 0 <= a < b < |xs| :: xs[a] == x && xs[b] == y
  }

  lemma BeforeInside(a: seq<Name>, xs: seq<Name>, b: seq<Name>, x: Name, y: Name)
    requires Before(xs, x, y)
    ensures Before(a + xs + b, x, y)
  {
    var i, j :| 0 <= i < j < |xs| && xs[i] == x && xs[j] == y;
    var all := a + xs + b;
    assert all[|a| + i] == x && all[|a| + j] == y;
  }

  lemma BeforeInPrefix(xs: seq<Name>, all: seq<Name>, x: Name, y: Name)
    requires xs <= all && Before(xs, x, y)
    ensures Before(all, x, y)
  {
    BeforeInside([], xs, all[|xs|..], x, y);
    assert [] + xs + all[|xs|..] == all;
  }

  lemma AppendedLater(xs: seq<Name>, x: Name, y: Name)
    requires x in xs
    ensures Before(xs + [y], x, y)
  {
    var i :| 0 <= i < |xs| && xs[i] == x;
    var all := xs + [y];
    assert all[i] == x && all[|xs|] == y;
  }

  lemma {:induction false} NewNamesGrow(own: seq<Property>, k: nat, seen: set<Name>, q: Query)
    requires k <= |own|
    ensures NewNames(own[..k], seen, q) <= NewNames(own, seen, q)
  {
    if k < |own| {
      var init := own[..|own| - 1];
      NewNamesGrow(init, k, seen, q);
      assert init[..k] == own[..k];
    } else {
      assert own[..k] == own;
    }
  }

  /** The property at `j` is asked for, and it is the first of its name that is. */
  ghost predicate FirstWanted(own: seq<Property>, seen: set<Name>, q: Query, j: nat) {
    && j < |own| && Wanted(own[j], q) && own[j].name !in seen
    && forall k | 0 <= k < j :: own[k].name == own[j].name ==> !Wanted(own[k], q)
  }

  lemma NewAt(own: seq<Property>, seen: set<Name>, q: Query, j: nat)
    requires FirstWanted(own, seen, q, j)
    ensures NewNames(own[..j + 1], seen, q) == NewNames(own[..j], seen, q) + [own[j].name]
  {
    var init := own[..j];
    assert own[..j + 1][..j] == init;
    OffersIff(init, own[j].name, q);
    NewNamesOnce(init, seen, q, own[j].name);
    CountAppend(NewNames(init, seen, q), [], own[j].name);
    WantedIff(own[j], q);
  }

  lemma NewInPrefix(own: seq<Property>, seen: set<Name>, q: Query, i: nat, j: nat)
    requires i < j <= |own| && FirstWanted(own, seen, q, i)
    ensures own[i].name in NewNames(own[..j], seen, q)
  {
    var init := own[..j];
    assert init[i] == own[i];
    OffersIff(init, own[i].name, q);
    NewNamesOnce(init, seen, q, own[i].name);
    CountAppend(NewNames(init, seen, q), [], own[i].name);
  }

  lemma NewLater(own: seq<Property>, seen: set<Name>, q: Query, i: nat, j: nat)
    requires i < j && FirstWanted(own, seen, q, i) && FirstWanted(own, seen, q, j)
    ensures Before(NewNames(own[..j + 1], seen, q), own[i].name, own[j].name)
  {
    NewAt(own, seen, q, j);
    NewInPrefix(own, seen, q, i, j);
    AppendedLater(NewNames(own[..j], seen, q), own[i].name, own[j].name);
  }

  lemma NewBefore(own: seq<Property>, seen: set<Name>, q: Query, i: nat, j: nat)
    requires i < j && FirstWanted(own, seen, q, i) && FirstWanted(own, seen, q, j)
    ensures Before(NewNames(own, seen, q), own[i].name, own[j].name)
  {
    NewLater(own, seen, q, i, j);
    NewNamesGrow(own, j + 1, seen, q);
    BeforeInPrefix(NewNames(own[..j + 1], seen, q), NewNames(own, seen, q), own[i].name, own[j].name);
  }

  lemma {:induction false} OfKindKeepsOrder(xs: seq<Name>, kind: Kind, x: Name, y: Name)
    requires Before(xs, x, y) && KindOf(x) == KindOf(y) == kind
    ensures Before(OfKind(xs, kind), x, y)
  {
    var a, b :| 0 <= a < b < |xs| && xs[a] == x && xs[b] == y;
    var init, last := xs[..|xs| - 1], xs[|xs| - 1];
    assert init[a] == x;
    if b < |init| {
      assert init[b] == y;
      OfKindKeepsOrder(init, kind, x, y);
      var more: seq<Name> := if KindOf(last) == kind then [last] else [];
      BeforeInPrefix(OfKind(init, kind), OfKind(init, kind) + more, x, y);
    } else {
      OfKindMembers(init, kind, x);
      AppendedLater(OfKind(init, kind), x, y);
    }
  }

  lemma LevelParts(level: seq<Name>, news: seq<Name>)
    requires Level(level, news)
    ensures var k := |OfKind(news, IndexKind)|;
            && k <= |level|
            && level == level[..k] + OfKind(news, StringKind) + OfKind(news, SymbolKind)
            && forall i | 0 <= i < k :: KindOf(level[i]) == IndexKind
  {
    var indices := OfKind(news, IndexKind);
    var k := |indices|;
    PermutedKind(indices, level[..k], news);
    assert forall i | 0 <= i < k :: level[i] == level[..k][i];
    Regroup(level[..k], OfKind(news, StringKind), OfKind(news, SymbolKind));
    assert level == level[..k] + level[k..];
  }

  /** What an object adds is indices, then strings, then symbols. */
  lemma KindsInOrder(obj: Object, q: Query, seen: set<Name>, raw: seq<Name>)
    requires Result(obj, q, seen, raw)
    ensures var n := |NewNames(obj.own, seen, q)|;
            && n <= |raw|
            && forall i, j {:trigger raw[i], raw[j]} | 0 <= i < j < n ::
                 && (raw[i].Symbol? ==> raw[j].Symbol?)
                 && (DenotesIndex(raw[j]) ==> DenotesIndex(raw[i]))
  {
    var news := NewNames(obj.own, seen, q);
    var level := raw[..|news|];
    var strings, symbols := OfKind(news, StringKind), OfKind(news, SymbolKind);
    var k := |OfKind(news, IndexKind)|;
    LevelParts(level, news);
    OfKindOnly(news, StringKind);
    OfKindOnly(news, SymbolKind);
    forall i, j | 0 <= i < j < |news|
      ensures raw[i].Symbol? ==> raw[j].Symbol?
      ensures DenotesIndex(raw[j]) ==> DenotesIndex(raw[i])
    {
      KindIsIndexIff(raw[i]);
      KindIsIndexIff(raw[j]);
      KindAt(level, news, i);
      KindAt(level, news, j);
    }
  }

  lemma KindAt(level: seq<Name>, news: seq<Name>, i: nat)
    requires Level(level, news) && i < |level|
    ensures var k := |OfKind(news, IndexKind)|;
            var l := k + |OfKind(news, StringKind)|;
            KindOf(level[i]) == if i < k then IndexKind else if i < l then StringKind else SymbolKind
  {
    LevelParts(level, news);
    OfKindOnly(news, StringKind);
    OfKindOnly(news, SymbolKind);
    var k := |OfKind(news, IndexKind)|;
    var l := k + |OfKind(news, StringKind)|;
    if k <= i < l {
      assert level[i] == OfKind(news, StringKind)[i - k];
    } else if l <= i {
      assert level[i] == OfKind(news, SymbolKind)[i - l];
    }
  }

  /** Two new keys of an object, both strings or both symbols. */
  ghost predicate ComparableKeys(own: seq<Property>, seen: set<Name>, q: Query, i: nat, j: nat) {
    && i < j && FirstWanted(own, seen, q, i) && FirstWanted(own, seen, q, j)
    && own[i].name.Symbol? == own[j].name.Symbol?
    && !DenotesIndex(own[i].name) && !DenotesIndex(own[j].name)
  }

  /** They come in the order of enumeration. */
  lemma EnumerationOrderKept(obj: Object, q: Query, seen: set<Name>, raw: seq<Name>, i: nat, j: nat)
    requires Result(obj, q, seen, raw)
    ensures ComparableKeys(obj.own, seen, q, i, j) ==> Before(raw, obj.own[i].name, obj.own[j].name)
  {
    if ComparableKeys(obj.own, seen, q, i, j) {
      var x, y := obj.own[i].name, obj.own[j].name;
      var news := NewNames(obj.own, seen, q);
      KindIsIndexIff(x);
      KindIsIndexIff(y);
      NewBefore(obj.own, seen, q, i, j);
      OfKindKeepsOrder(news, KindOf(x), x, y);
      KindPartIn(raw[..|news|], news, KindOf(x), x, y);
      BeforeInPrefix(raw[..|news|], raw, x, y);
    }
  }

  lemma KindPartIn(level: seq<Name>, news: seq<Name>, kind: Kind, x: Name, y: Name)
    requires Level(level, news) && kind != IndexKind && Before(OfKind(news, kind), x, y)
    ensures Before(level, x, y)
  {
    var k, strings, symbols := |OfKind(news, IndexKind)|, OfKind(news, StringKind), OfKind(news, SymbolKind);
    LevelParts(level, news);
    if kind == StringKind {
      BeforeInside(level[..k], strings, symbols, x, y);
    } else {
      BeforeInside(level[..k] + strings, symbols, [], x, y);
      assert level[..k] + strings + symbols + [] == level;
    }
  }

  // ---- An object at the end of the chain ----

  lemma TheLastObjectIsVisited()
    ensures var last := Object([Property(Str("a"), true, true, true)], None);
            var q := ALL_OWN.(mode := IncludePrototypes);
            forall a | PropertyNamesOf(Object([], Some(last)), q, KeepNumbers, a) :: Str("a") in a
  {
    var last := Object([Property(Str("a"), true, true, true)], None);
    var obj := Object([], Some(last));
    var q := ALL_OWN.(mode := IncludePrototypes);
    assert Chain(obj) == [obj] + Chain(last) && Chain(obj)[1] == last;
    var chain := Chain(obj);
    assert OwnWanted(chain[1].own, Str("a"), q) by {
      assert last.own[0].name == Str("a") && Wanted(last.own[0], q);
    }
    forall a | PropertyNamesOf(obj, q, KeepNumbers, a)
      ensures Str("a") in a
    {
      KeysOnTheChain(obj, q, KeepNumbers, a, Str("a"));
    }
  }
}
