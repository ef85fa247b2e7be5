/** `PersistentValueMap`, `GlobalValueMap` and `PersistentValueVector` of include/v8-util.h with non-weak
    traits: containers that hold the raw cells of the globals moved into them. */
module PersistentContainers {
  import opened CellAccounts
  import opened Handles
  import opened Programs

  /** `PersistentValueReference`: a cell somebody else owns. */
  class Reference {
    var value: Cell

    constructor ()
      ensures value == NULL
    {
      value := NULL;
    }
  }

  /** A change of one entry through the traits. */
  datatype Change = Store(key: Key, value: Cell) | Erase(key: Key)

  function Changed(m: map<Key, Cell>, changes: seq<Change>): map<Key, Cell> {
    if changes == [] then m
    else
      var before := Changed(m, changes[..|changes| - 1]);
      match changes[|changes| - 1]
      case Store(key, value) => before[key := value]
      case Erase(key) => before - {key}
  }

  /** The latest change of `key` is at `i`. */
  predicate LatestAt(changes: seq<Change>, key: Key, i: nat) {
    i < |changes| && changes[i].key == key && forall j | i < j < |changes| :: changes[j].key != key
  }

  lemma {:induction false} UnchangedSince(m: map<Key, Cell>, changes: seq<Change>, key: Key, i: nat)
    requires i <= |changes| && forall j | i <= j < |changes| :: changes[j].key != key
    ensures Lookup(Changed(m, changes), key) == Lookup(Changed(m, changes[..i]), key)
  {
    if i == |changes| {
      assert changes[..i] == changes;
    } else {
      var init := changes[..|changes| - 1];
      UnchangedSince(m, init, key, i);
      assert init[..i] == changes[..i];
    }
  }

  /** What `Get` returns: the value stored by the latest change of the key, or "not found" when that was a
      removal. */
  lemma {:induction false} LookupIsLatest(m: map<Key, Cell>, changes: seq<Change>, key: Key, i: nat)
    requires LatestAt(changes, key, i)
    ensures Lookup(Changed(m, changes), key) == if changes[i].Store? then changes[i].value else NULL
  {
    UnchangedSince(m, changes, key, i + 1);
    assert changes[..i + 1][..i] == changes[..i];
  }

  class PersistentValueMap {
    const handles: GlobalHandles
    var impl: map<Key, Cell>

    constructor (handles: GlobalHandles)
      ensures this.handles == handles && impl == map[]
    {
      this.handles, impl := handles, map[];
    }

    /** `StdMapTraits::Set`. */
    method TraitsSet(key: Key, value: Cell) returns (oldValue: Cell)
      modifies this`impl
      ensures impl == old(impl)[key := value] && oldValue == Lookup(old(impl), key)
    {
      oldValue := NULL;
      if key in impl {
        oldValue := impl[key];
      }
      impl := impl[key := value];
    }

    method TraitsGet(key: Key) returns (value: Cell)
      ensures value == Lookup(impl, key)
    {
      value := if key in impl then impl[key] else NULL;
    }

    method TraitsRemove(key: Key) returns (value: Cell)
      modifies this`impl
      ensures impl == old(impl) - {key} && value == Lookup(old(impl), key)
    {
      if key !in impl {
        assert impl - {key} == impl;
        return NULL;
      }
      value := impl[key];
      impl := impl - {key};
    }

    static method ClearAndLeak(persistent: Global) returns (v: Cell)
      modifies persistent
      ensures v == old(persistent.val) && persistent.val == NULL
    {
      v := persistent.val;
      persistent.val := NULL;
    }

    /** Turns a raw cell back into a handle. */
    static method Release(v: Cell) returns (g: Global)
      ensures fresh(g) && g.val == v
    {
      var p := new Global.Empty();
      p.val := v;
      g := p.Pass();
    }

    /** Whether the stored value is not the "not found" one. */
    method Contains(key: Key) returns (found: bool)
      ensures found <==> Lookup(impl, key) != NULL
    {
      var v := TraitsGet(key);
      found := v != NULL;
    }

    /** `SetUnique`: the map takes the cell out of the handle and the old value comes back as a handle. */
    method SetUnique(key: Key, persistent: Global) returns (oldGlobal: Global)
      modifies this`impl, persistent
      ensures fresh(oldGlobal) && oldGlobal.val == Lookup(old(impl), key)
      ensures persistent.val == NULL && impl == old(impl)[key := old(persistent.val)]
      ensures MapCells(impl) + One(oldGlobal.val) == MapCells(old(impl)) + One(old(persistent.val))
    {
      MapCellsSet(impl, key, persistent.val);
      var v := ClearAndLeak(persistent);
      var oldValue := TraitsSet(key, v);
      oldGlobal := Release(oldValue);
    }

    /** `Set(key, Local)`. */
    method SetLocal(key: Key, local: Cell) returns (oldGlobal: Global)
      requires handles.Valid()
      modifies this`impl, handles
      ensures handles.Valid() && handles.missed == old(handles.missed)
      ensures handles.created == old(handles.created) + One(local)
      ensures fresh(oldGlobal) && oldGlobal.val == Lookup(old(impl), key)
      ensures impl == old(impl)[key := local]
      ensures handles.registered == old(handles.registered) + One(local)
      ensures MapCells(impl) + One(oldGlobal.val) == MapCells(old(impl)) + One(local)
    {
      var persistent := new Global.FromLocal(handles, local);
      oldGlobal := SetUnique(key, persistent);
      persistent.Reset(handles);
    }

    /** `Set(key, Global)`: the argument is moved in. */
    method SetGlobal(key: Key, value: Global) returns (oldGlobal: Global)
      modifies this`impl, value
      ensures fresh(oldGlobal) && oldGlobal.val == Lookup(old(impl), key)
      ensures value.val == NULL && impl == old(impl)[key := old(value.val)]
      ensures MapCells(impl) + One(oldGlobal.val) == MapCells(old(impl)) + One(old(value.val))
    {
      var argument := new Global.MoveFrom(value);
      oldGlobal := SetUnique(key, argument);
    }

    /** `Set(key, Global, reference)`: the reference shows the cell that is now in the map. */
    method SetWithReference(key: Key, value: Global, reference: Reference) returns (oldGlobal: Global)
      modifies this`impl, value, reference
      ensures fresh(oldGlobal) && oldGlobal.val == Lookup(old(impl), key)
      ensures value.val == NULL && impl == old(impl)[key := old(value.val)]
      ensures reference.value == Lookup(impl, key)
      ensures MapCells(impl) + One(oldGlobal.val) == MapCells(old(impl)) + One(old(value.val))
    {
      var argument := new Global.MoveFrom(value);
      reference.value := argument.val;
      oldGlobal := SetUnique(key, argument);
    }

    method Remove(key: Key) returns (g: Global)
      modifies this`impl
      ensures fresh(g) && g.val == Lookup(old(impl), key) && impl == old(impl) - {key}
      ensures MapCells(impl) + One(g.val) == MapCells(old(impl))
    {
      MapCellsRemove(impl, key);
      var v := TraitsRemove(key);
      g := Release(v);
    }

    /** Every registration belongs to the map, to a handle of the program, or to `other` owners. */
    ghost predicate Conserved(program: Program, other: multiset<Cell>)
      reads this, handles, program, program.globals
    {
      && handles.Valid() && program.Valid()
      && handles.registered == MapCells(impl) + program.owned + other
    }

    /** The destructor of a handle that is not among the program's. */
    method DestroyTemporary(g: Global, program: Program, ghost other: multiset<Cell>)
      requires g !in program.globals
      requires Conserved(program, other + One(g.val))
      modifies handles, g
      ensures Conserved(program, other) && handles.missed == old(handles.missed) && g.val == NULL
      ensures handles.created == old(handles.created)
    {
      assert One(g.val) <= other + One(g.val);
      g.Reset(handles);
    }

    // The three ways of changing one entry, with the balance of registrations: what goes into the map is
    // registered elsewhere before, and what comes out is afterwards.

    method ExchangeLocal(key: Key, local: Cell, program: Program, ghost other: multiset<Cell>) returns (g: Global)
      requires Conserved(program, other)
      modifies this`impl, handles
      ensures fresh(g) && g.val == Lookup(old(impl), key) && impl == old(impl)[key := local]
      ensures Conserved(program, other + One(g.val)) && handles.missed == old(handles.missed)
      ensures handles.created == old(handles.created) + One(local)
    {
      ghost var before := impl;
      g := SetLocal(key, local);
      Exchange(MapCells(before), One(local), MapCells(impl), One(g.val), program.owned, other);
    }

    method ExchangeGlobal(key: Key, value: Global, program: Program, ghost other: multiset<Cell>) returns (g: Global)
      requires value !in program.globals
      requires Conserved(program, other + One(value.val))
      modifies this`impl, value
      ensures fresh(g) && g.val == Lookup(old(impl), key) && impl == old(impl)[key := old(value.val)]
      ensures value.val == NULL && Conserved(program, other + One(g.val))
    {
      ghost var before, c := impl, value.val;
      g := SetGlobal(key, value);
      Exchange(MapCells(before), One(c), MapCells(impl), One(g.val), program.owned, other);
    }

    method TakeOut(key: Key, program: Program, ghost other: multiset<Cell>) returns (g: Global)
      requires Conserved(program, other)
      modifies this`impl
      ensures fresh(g) && g.val == Lookup(old(impl), key) && impl == old(impl) - {key}
      ensures Conserved(program, other + One(g.val))
    {
      ghost var before := impl;
      g := Remove(key);
      Exchange(MapCells(before), multiset{}, MapCells(impl), One(g.val), program.owned, other);
    }

    // `map.Set(key, local)`, dropping the old value.
    method InsertLocal(key: Key, local: Cell, program: Program, ghost other: multiset<Cell>)
      requires Conserved(program, other)
      modifies this`impl, handles
      ensures Conserved(program, other) && handles.missed == old(handles.missed)
      ensures handles.created == old(handles.created) + One(local)
      ensures impl == old(impl)[key := local]
    {
      var oldGlobal := ExchangeLocal(key, local, program, other);
      DestroyTemporary(oldGlobal, program, other);
    }

    // `map.Set(key, value.Pass())`, dropping the old value.
    method InsertGlobal(key: Key, value: Global, program: Program, ghost other: multiset<Cell>)
      requires value !in program.globals
      requires Conserved(program, other + One(value.val))
      modifies this`impl, handles, value
      ensures value.val == NULL && Conserved(program, other)
      ensures handles.missed == old(handles.missed)
      ensures handles.created == old(handles.created)
      ensures impl == old(impl)[key := old(value.val)]
    {
      var oldGlobal := ExchangeGlobal(key, value, program, other);
      assert oldGlobal !in program.globals && oldGlobal != value;
      DestroyTemporary(oldGlobal, program, other);
    }

    // `map.Remove(key)`, dropping the value.
    method Discard(key: Key, program: Program, ghost other: multiset<Cell>)
      requires Conserved(program, other)
      modifies this`impl, handles
      ensures Conserved(program, other) && handles.missed == old(handles.missed)
      ensures handles.created == old(handles.created)
      ensures impl == old(impl) - {key}
    {
      var g := TakeOut(key, program, other);
      DestroyTemporary(g, program, other);
    }

    // Moves the value into a handle of the program.
    method KeepGlobal(value: Global, program: Program, ghost other: multiset<Cell>)
      requires value !in program.globals
      requires Conserved(program, other + One(value.val))
      modifies program, value
      ensures value.val == NULL && Conserved(program, other)
      ensures program.Grew() && old(program.globals) <= program.globals && value !in program.globals
      ensures program.cells == old(program.cells) + [old(value.val)]
    {
      MoveToGlobals(MapCells(impl), program.owned, other, One(value.val));
      program.MoveIn(value);
    }

    // The same three ways, with handles of the program: what comes out becomes a further handle.

    method KeepOldLocal(key: Key, local: Cell, program: Program, ghost other: multiset<Cell>)
      requires Conserved(program, other)
      modifies this`impl, handles, program
      ensures Conserved(program, other) && handles.missed == old(handles.missed) && program.Grew()
      ensures handles.created == old(handles.created) + One(local)
      ensures impl == old(impl)[key := local] && program.cells == old(program.cells) + [Lookup(old(impl), key)]
    {
      var g := ExchangeLocal(key, local, program, other);
      KeepGlobal(g, program, other);
    }

    // Either `Set` with a handle: with a reference to be set, or without one.
    method SetEither(key: Key, value: Global, reference: Reference?) returns (g: Global)
      modifies this`impl, value, reference
      ensures fresh(g) && g.val == Lookup(old(impl), key)
      ensures value.val == NULL && impl == old(impl)[key := old(value.val)]
      ensures MapCells(impl) + One(g.val) == MapCells(old(impl)) + One(old(value.val))
      ensures reference != null ==> reference.value == Lookup(impl, key)
    {
      if reference == null {
        g := SetGlobal(key, value);
      } else {
        g := SetWithReference(key, value, reference);
      }
    }

    method ExchangeHandle(key: Key, i: nat, reference: Reference?, program: Program, ghost other: multiset<Cell>)
      returns (g: Global)
      requires Conserved(program, other) && i < |program.globals|
      modifies this`impl, program`cells, program`owned, program.globals[i], reference
      ensures fresh(g) && g.val == Lookup(old(impl), key) && program.globals == old(program.globals)
      ensures impl == old(impl)[key := old(program.cells)[i]] && program.cells == old(program.cells)[i := NULL]
      ensures reference != null ==> reference.value == old(program.cells)[i]
      ensures Conserved(program, other + One(g.val))
    {
      ghost var before, owned, c := impl, program.owned, program.globals[i].val;
      g := SetEither(key, program.globals[i], reference);
      program.RecordEmptied(i);
      ExchangeOwned(MapCells(before), MapCells(impl), One(c), One(g.val), owned, program.owned, other);
    }

    method KeepOldHandle(key: Key, i: nat, reference: Reference?, program: Program, ghost other: multiset<Cell>)
      requires Conserved(program, other) && i < |program.globals|
      modifies this`impl, program, program.globals[i], reference
      ensures Conserved(program, other) && program.Grew()
      ensures impl == old(impl)[key := old(program.cells)[i]]
      ensures program.cells == old(program.cells)[i := NULL] + [Lookup(old(impl), key)]
      ensures reference != null ==> reference.value == old(program.cells)[i]
    {
      var g := ExchangeHandle(key, i, reference, program, other);
      KeepGlobal(g, program, other);
    }

    method KeepRemoved(key: Key, program: Program, ghost other: multiset<Cell>)
      requires Conserved(program, other)
      modifies this`impl, program
      ensures Conserved(program, other) && program.Grew()
      ensures impl == old(impl) - {key} && program.cells == old(program.cells) + [Lookup(old(impl), key)]
    {
      var g := TakeOut(key, program, other);
      KeepGlobal(g, program, other);
    }
  }

  /** `PersistentValueVector`. */
  class PersistentValueVector {
    const handles: GlobalHandles
    var impl: seq<Cell>

    constructor (handles: GlobalHandles)
      ensures this.handles == handles && impl == []
    {
      this.handles, impl := handles, [];
    }

    static method ClearAndLeak(persistent: Global) returns (v: Cell)
      modifies persistent
      ensures v == old(persistent.val) && persistent.val == NULL
    {
      v := persistent.val;
      persistent.val := NULL;
    }

    /** `Append(Local)`. */
    method AppendLocal(local: Cell)
      requires handles.Valid()
      modifies this`impl, handles
      ensures handles.Valid() && handles.missed == old(handles.missed)
      ensures handles.created == old(handles.created) + One(local)
      ensures impl == old(impl) + [local]
      ensures handles.registered == old(handles.registered) + One(local)
    {
      var persistent := new Global.FromLocal(handles, local);
      var v := ClearAndLeak(persistent);
      impl := impl + [v];
      persistent.Reset(handles);
    }

    /** `Append(Global)`: the argument is moved in. */
    method AppendGlobal(persistent: Global)
      modifies this`impl, persistent
      ensures impl == old(impl) + [old(persistent.val)] && persistent.val == NULL
    {
      var argument := new Global.MoveFrom(persistent);
      var v := ClearAndLeak(argument);
      impl := impl + [v];
    }

    /** `Get`: no value past the end. */
    method Get(index: nat) returns (v: Cell)
      ensures v == if index < |impl| then impl[index] else NULL
    {
      v := if index < |impl| then impl[index] else NULL;
    }

    /** `Clear`: each cell is given to a handle that dies at once; the vector is emptied at the end. */
    method Clear(ghost other: multiset<Cell>)
      requires handles.Valid() && handles.registered == SeqCells(impl) + other
      modifies this`impl, handles
      ensures handles.Valid() && handles.registered == other && handles.missed == old(handles.missed)
      ensures handles.created == old(handles.created)
      ensures impl == []
    {
      var length := |impl|;
      assert impl[0..] == impl;
      for i := 0 to length
        invariant impl == old(impl) && handles.Valid() && handles.missed == old(handles.missed)
        invariant handles.created == old(handles.created)
        invariant handles.registered == SeqCells(impl[i..]) + other
      {
        var p := new Global.Empty();
        p.val := impl[i];
        SeqCellsFirst(impl[i..]);
        assert impl[i..][1..] == impl[i + 1..];
        Released(SeqCells(impl[i..]), other, One(p.val), SeqCells(impl[i + 1..]));
        p.Reset(handles);
      }
      impl := [];
      assert SeqCells([]) + other == other;
    }
  }
}
