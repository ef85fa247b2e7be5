/** Counting the cells that containers and handles own. */
module CellAccounts {
  import opened Handles

  type Key = int

  function Lookup(m: map<Key, Cell>, k: Key): Cell {
    if k in m then m[k] else NULL
  }

  lemma EmptyOrSomeKey(keys: set<Key>)
    ensures keys == {} || exists k :: k in keys
  {
    if forall k :: k !in keys {
      assert keys == {};
    }
  }

  /** The cells under `keys`, with multiplicity. */
  ghost function CellsUnder(m: map<Key, Cell>, keys: set<Key>): multiset<Cell> {
    if keys == {} then multiset{}
    else
      EmptyOrSomeKey(keys);
      var k :| k in keys;
      CellsUnder(m, keys - {k}) + One(Lookup(m, k))
  }

  ghost function MapCells(m: map<Key, Cell>): multiset<Cell> {
    CellsUnder(m, m.Keys)
  }

  /** Whichever key is taken out first. */
  lemma {:induction false} CellsUnderRemove(m: map<Key, Cell>, keys: set<Key>, k: Key)
    requires k in keys
    ensures CellsUnder(m, keys) == CellsUnder(m, keys - {k}) + One(Lookup(m, k))
    decreases |keys|
  {
    var j :| j in keys && CellsUnder(m, keys) == CellsUnder(m, keys - {j}) + One(Lookup(m, j));
    if j != k {
      CellsUnderRemove(m, keys - {j}, k);
      CellsUnderRemove(m, keys - {k}, j);
      assert keys - {j} - {k} == keys - {k} - {j};
    }
  }

  lemma {:induction false} CellsUnderAgree(m: map<Key, Cell>, n: map<Key, Cell>, keys: set<Key>)
    requires forall k | k in keys :: Lookup(m, k) == Lookup(n, k)
    ensures CellsUnder(m, keys) == CellsUnder(n, keys)
    decreases |keys|
  {
    if keys != {} {
      EmptyOrSomeKey(keys);
      var k :| k in keys;
      CellsUnderRemove(m, keys, k);
      CellsUnderRemove(n, keys, k);
      CellsUnderAgree(m, n, keys - {k});
    }
  }

  lemma MapCellsRemove(m: map<Key, Cell>, k: Key)
    ensures MapCells(m) == MapCells(m - {k}) + One(Lookup(m, k))
  {
    assert (m - {k}).Keys == m.Keys - {k};
    CellsUnderAgree(m, m - {k}, m.Keys - {k});
    if k in m {
      CellsUnderRemove(m, m.Keys, k);
    } else {
      assert m.Keys - {k} == m.Keys;
    }
  }

  lemma MapCellsSet(m: map<Key, Cell>, k: Key, c: Cell)
    ensures MapCells(m[k := c]) + One(Lookup(m, k)) == MapCells(m) + One(c)
  {
    var n := m[k := c];
    assert n - {k} == m - {k};
    MapCellsRemove(n, k);
    MapCellsRemove(m, k);
  }

  /** The cells in a sequence of `val_` fields or raw values. */
  function SeqCells(s: seq<Cell>): multiset<Cell> {
    multiset(s)[NULL := 0]
  }

  lemma SeqCellsAppend(s: seq<Cell>, c: Cell)
    ensures SeqCells(s + [c]) == SeqCells(s) + One(c)
  {
    assert multiset(s + [c]) == multiset(s) + multiset{c};
  }

  lemma SeqCellsConcat(s: seq<Cell>, t: seq<Cell>)
    ensures SeqCells(s + t) == SeqCells(s) + SeqCells(t)
  {
    assert multiset(s + t) == multiset(s) + multiset(t);
  }

  lemma SeqCellsSplit(s: seq<Cell>, t: seq<Cell>, c: Cell)
    ensures SeqCells(s + [c] + t) == SeqCells(s + t) + One(c)
  {
    assert multiset(s + [c] + t) == multiset(s + t) + multiset{c};
    SeqCellsAppend(s + t, c);
  }

  lemma SeqCellsFirst(s: seq<Cell>)
    requires s != []
    ensures SeqCells(s[1..]) + One(s[0]) == SeqCells(s)
  {
    SeqCellsSplit([], s[1..], s[0]);
    assert s == [] + [s[0]] + s[1..] && [] + s[1..] == s[1..];
  }

  lemma SeqCellsRemove(s: seq<Cell>, i: nat)
    requires i < |s|
    ensures SeqCells(s) == SeqCells(s[..i] + s[i + 1..]) + One(s[i])
  {
    SeqCellsSplit(s[..i], s[i + 1..], s[i]);
    assert s == s[..i] + [s[i]] + s[i + 1..];
  }

  lemma SeqCellsUpdate(s: seq<Cell>, i: nat, c: Cell)
    requires i < |s|
    ensures SeqCells(s[i := c]) + One(s[i]) == SeqCells(s) + One(c)
  {
    var t, less := s[i := c], s[..i] + s[i + 1..];
    SeqCellsRemove(s, i);
    SeqCellsRemove(t, i);
    assert t[..i] + t[i + 1..] == less;
    Commute(SeqCells(less), One(c), One(s[i]));
  }

  lemma SeqCellsMove(s: seq<Cell>, i: nat, j: nat)
    requires i < |s| && j < |s| && i != j
    ensures SeqCells(s[i := s[j]][j := NULL]) + One(s[i]) == SeqCells(s)
  {
    var t := s[i := s[j]];
    SeqCellsUpdate(s, i, s[j]);
    SeqCellsUpdate(t, j, NULL);
    Moved(SeqCells(s), SeqCells(t), SeqCells(t[j := NULL]), One(s[i]), One(s[j]));
  }

  lemma Moved(s: multiset<Cell>, t: multiset<Cell>, u: multiset<Cell>, goesOut: multiset<Cell>, moved: multiset<Cell>)
    requires t + goesOut == s + moved && u + moved == t + multiset{}
    ensures u + goesOut == s
  {
    forall c
      ensures (u + goesOut)[c] == s[c]
    {
      assert (t + goesOut)[c] == (s + moved)[c] && (u + moved)[c] == (t + multiset{})[c];
    }
  }

  lemma Commute(a: multiset<Cell>, b: multiset<Cell>, c: multiset<Cell>)
    ensures a + b + c == a + c + b
  {
  }

  lemma InTransit(owned: multiset<Cell>, other: multiset<Cell>, c: multiset<Cell>)
    ensures owned + c + other == owned + (other + c)
  {
  }

  // All cells of a map have become handles.
  lemma SwappedOwners(cells: multiset<Cell>, owned: multiset<Cell>, rest: multiset<Cell>)
    ensures MapCells(map[]) + (owned + cells) + rest == cells + owned + rest
  {
  }

  lemma Unspent(registered: multiset<Cell>, disposed: multiset<Cell>, disposed': multiset<Cell>)
    requires registered + disposed == registered + disposed'
    ensures disposed == disposed'
  {
    assert (registered + disposed) - registered == disposed && (registered + disposed') - registered == disposed';
  }

  lemma Rotate(a: multiset<Cell>, b: multiset<Cell>, c: multiset<Cell>)
    ensures a + b + c == b + (c + a)
  {
  }

  // What a container of cells `s` gains, beside the map, the handles and `other` owners.
  lemma Appended(m: multiset<Cell>, owned: multiset<Cell>, s: multiset<Cell>, other: multiset<Cell>, c: multiset<Cell>)
    ensures m + owned + (s + other) + c == m + owned + (s + c + other)
    ensures m + (owned + c) + (s + other) == m + owned + (s + c + other)
  {
  }

  lemma SetApart(m: multiset<Cell>, owned: multiset<Cell>, s: multiset<Cell>, other: multiset<Cell>)
    ensures m + owned + (s + other) == s + (m + owned + other)
  {
  }

  lemma NothingLeft(other: multiset<Cell>)
    ensures other + MapCells(map[]) == other
  {
  }

  // A map whose cells are taken out of it to be disposed.
  lemma SwapOut(s: multiset<Cell>, other: multiset<Cell>, drained: multiset<Cell>, owned: multiset<Cell>)
    ensures drained + owned + (s + other) == MapCells(map[]) + owned + (s + (other + drained))
  {
  }

  lemma Regroup(s: multiset<Cell>, other: multiset<Cell>, c: multiset<Cell>)
    ensures s + (other + c) == s + other + c
  {
  }

  // Bookkeeping: what goes into a container and what comes out of it balance.
  lemma Exchange(before: multiset<Cell>, comesIn: multiset<Cell>, after: multiset<Cell>, goesOut: multiset<Cell>,
                 globals: multiset<Cell>, other: multiset<Cell>)
    requires after + goesOut == before + comesIn
    ensures before + globals + (other + comesIn) == after + globals + (other + goesOut)
    ensures before + globals + other + comesIn == after + globals + (other + goesOut)
  {
    assert before + globals + (other + comesIn) == (before + comesIn) + (globals + other);
    assert (after + goesOut) + (globals + other) == after + globals + (other + goesOut);
  }

  // The same when what comes in leaves a handle.
  lemma ExchangeOwned(before: multiset<Cell>, after: multiset<Cell>, comesIn: multiset<Cell>, goesOut: multiset<Cell>,
                      owned: multiset<Cell>, owned': multiset<Cell>, other: multiset<Cell>)
    requires after + goesOut == before + comesIn && owned' + comesIn == owned
    ensures before + owned + other == after + owned' + (other + goesOut)
  {
    MoveToGlobals(before, owned', other, comesIn);
    Exchange(before, comesIn, after, goesOut, owned', other);
  }

  lemma Released(owned: multiset<Cell>, other: multiset<Cell>, goesOut: multiset<Cell>, owned': multiset<Cell>)
    requires owned' + goesOut == owned
    ensures goesOut <= owned + other && owned + other - goesOut == owned' + other
  {
    Commute(owned', goesOut, other);
    assert (owned' + other) + goesOut - goesOut == owned' + other;
  }

  lemma Replaced(owned: multiset<Cell>, other: multiset<Cell>, goesOut: multiset<Cell>, comesIn: multiset<Cell>,
                 owned': multiset<Cell>)
    requires owned' + goesOut == owned + comesIn
    ensures goesOut <= owned ==> owned + other - goesOut + comesIn == owned' + other
  {
    if goesOut <= owned {
      var kept := owned - goesOut;
      assert kept + goesOut == owned;
      Released(owned, other, goesOut, kept);
      Commute(kept, goesOut, comesIn);
      assert owned' == (owned' + goesOut) - goesOut;
      assert kept + comesIn == (kept + comesIn + goesOut) - goesOut;
      Commute(kept, comesIn, other);
    }
  }

  lemma MoveToGlobals(cells: multiset<Cell>, globals: multiset<Cell>, other: multiset<Cell>, moved: multiset<Cell>)
    ensures cells + globals + (other + moved) == cells + (globals + moved) + other
  {
    assert globals + (other + moved) == (globals + moved) + other;
  }

  /** Everything created is registered or disposed, so what left the owners without staying registered was
      disposed, each registration once. */
  lemma Ledger(created0: multiset<Cell>, created1: multiset<Cell>, disposed0: multiset<Cell>, disposed1: multiset<Cell>,
               owned0: multiset<Cell>, owned1: multiset<Cell>, other: multiset<Cell>)
    requires owned0 + other + disposed0 == created0 && owned1 + other + disposed1 == created1
    ensures disposed1 + owned1 + created0 == disposed0 + owned0 + created1
  {
    forall c
      ensures (disposed1 + owned1 + created0)[c] == (disposed0 + owned0 + created1)[c]
    {
      assert created0[c] == owned0[c] + other[c] + disposed0[c];
      assert created1[c] == owned1[c] + other[c] + disposed1[c];
    }
  }
}
