/** Whole runs of a program that uses handles, a non-weak map and a vector together: no registration is
    lost and none is given up twice, whatever disposal callbacks do in between. */
module HandleWorld {
  import opened CellAccounts
  import opened ClearTheorems
  import opened Handles
  import opened Operations
  import opened Programs
  import opened PersistentContainers

  class World {
    const handles: GlobalHandles
    const values: PersistentValueMap
    const vector: PersistentValueVector
    const program: Program
    const reference: Reference

    ghost function Now(): Contents
      reads this, handles, values, vector, program
    {
      Contents(values.impl, vector.impl, program.cells, handles.created)
    }

    /** Every registration has exactly one owner: the map, the vector, a live handle, or what is in transit
        and counted as `other`. */
    ghost predicate Conserved(other: multiset<Cell>)
      reads this, handles, values, vector, program, program.globals
    {
      && values.handles == handles && vector.handles == handles
      && values.Conserved(program, SeqCells(vector.impl) + other)
    }

    constructor ()
      ensures fresh(handles) && fresh(values) && fresh(vector) && fresh(program) && fresh(reference)
      ensures Conserved(multiset{}) && handles.missed == 0
      ensures Now() == Contents(map[], [], [], multiset{}) && program.globals == []
    {
      var h := new GlobalHandles();
      handles := h;
      values := new PersistentValueMap(h);
      vector := new PersistentValueVector(h);
      program := new Program();
      reference := new Reference();
    }

    // ---- Operations on handles ----

    method DoNewHandle(local: Cell, ghost other: multiset<Cell>)
      requires Conserved(other)
      modifies handles, program
      ensures Conserved(other) && handles.missed == old(handles.missed) && program.Grew()
      ensures Simple(NewHandle(local), old(Now()), Now())
    {
      ghost var rest := SeqCells(vector.impl) + other;
      Rotate(MapCells(values.impl), program.owned, rest);
      program.New(handles, local, rest + MapCells(values.impl));
      Rotate(MapCells(values.impl), program.owned, rest);
    }

    method DoDestroyHandle(i: nat, ghost other: multiset<Cell>)
      requires Conserved(other) && i < |program.globals|
      modifies handles, program, program.globals[i]
      ensures Conserved(other) && handles.missed == old(handles.missed) && program.Grew()
      ensures Simple(DestroyHandle(i), old(Now()), Now())
    {
      ghost var rest := SeqCells(vector.impl) + other;
      Rotate(MapCells(values.impl), program.owned, rest);
      program.Destroy(handles, i, rest + MapCells(values.impl));
      Rotate(MapCells(values.impl), program.owned, rest);
    }

    method DoReset(i: nat, local: Cell, ghost other: multiset<Cell>)
      requires Conserved(other) && i < |program.globals|
      modifies handles, program`cells, program`owned, program.globals[i]
      ensures Conserved(other) && handles.missed == old(handles.missed)
      ensures Simple(ResetHandle(i, local), old(Now()), Now()) && program.globals == old(program.globals)
    {
      ghost var rest := SeqCells(vector.impl) + other;
      Rotate(MapCells(values.impl), program.owned, rest);
      program.ResetTo(handles, i, local, rest + MapCells(values.impl));
      Rotate(MapCells(values.impl), program.owned, rest);
    }

    method DoResetToHandle(i: nat, j: nat, ghost other: multiset<Cell>)
      requires Conserved(other) && i < |program.globals| && j < |program.globals|
      modifies handles, program`cells, program`owned, program.globals[i]
      ensures Conserved(other) && handles.missed == old(handles.missed)
      ensures Simple(ResetToHandle(i, j), old(Now()), Now()) && program.globals == old(program.globals)
    {
      ghost var rest := SeqCells(vector.impl) + other;
      Rotate(MapCells(values.impl), program.owned, rest);
      ghost var c := program.ResetToCopy(handles, i, j, rest + MapCells(values.impl));
      Rotate(MapCells(values.impl), program.owned, rest);
    }

    method DoMove(i: nat, j: nat, ghost other: multiset<Cell>)
      requires Conserved(other) && i < |program.globals| && j < |program.globals|
      modifies handles, program`cells, program`owned, program.globals[i], program.globals[j]
      ensures Conserved(other) && handles.missed == old(handles.missed)
      ensures Simple(MoveHandle(i, j), old(Now()), Now()) && program.globals == old(program.globals)
    {
      ghost var rest := SeqCells(vector.impl) + other;
      Rotate(MapCells(values.impl), program.owned, rest);
      program.MoveAssign(handles, i, j, rest + MapCells(values.impl));
      Rotate(MapCells(values.impl), program.owned, rest);
    }

    method DoOnHandles(op: Op, ghost other: multiset<Cell>)
      requires Conserved(other)
      requires op.NewHandle? || op.ResetHandle? || op.ResetToHandle? || op.MoveHandle? || op.DestroyHandle?
      modifies handles, program, program.globals
      ensures Conserved(other) && handles.missed == old(handles.missed)
      ensures program.Grew() && Simple(op, old(Now()), Now())
    {
      match op
      case NewHandle(local) => DoNewHandle(local, other);
      case ResetHandle(i, local) => if i < |program.globals| { DoReset(i, local, other); }
      case ResetToHandle(i, j) => if i < |program.globals| && j < |program.globals| { DoResetToHandle(i, j, other); }
      case MoveHandle(i, j) => if i < |program.globals| && j < |program.globals| { DoMove(i, j, other); }
      case DestroyHandle(i) => if i < |program.globals| { DoDestroyHandle(i, other); }
    }

    // ---- Operations on one entry of the map ----

    method DoSetLocal(key: Key, local: Cell, ghost other: multiset<Cell>)
      requires Conserved(other)
      modifies values`impl, handles, program
      ensures Conserved(other) && handles.missed == old(handles.missed)
      ensures Simple(SetLocal(key, local), old(Now()), Now()) && program.Grew()
    {
      values.KeepOldLocal(key, local, program, SeqCells(vector.impl) + other);
    }

    method DoSetHandle(key: Key, i: nat, reference: Reference?, ghost other: multiset<Cell>)
      requires Conserved(other) && i < |program.globals|
      modifies values`impl, program, program.globals[i], reference
      ensures Conserved(other) && program.Grew()
      ensures values.impl == old(values.impl)[key := old(program.cells)[i]]
      ensures program.cells == old(program.cells)[i := NULL] + [Lookup(old(values.impl), key)]
      ensures reference != null ==> reference.value == old(program.cells)[i]
    {
      values.KeepOldHandle(key, i, reference, program, SeqCells(vector.impl) + other);
    }

    method DoRemove(key: Key, ghost other: multiset<Cell>)
      requires Conserved(other)
      modifies values`impl, program
      ensures Conserved(other)
      ensures Simple(Remove(key), old(Now()), Now()) && program.Grew()
    {
      values.KeepRemoved(key, program, SeqCells(vector.impl) + other);
    }

    /** The reference shows the cell that was moved into the map with it, and otherwise what it showed. */
    method DoPut(op: Op, ghost other: multiset<Cell>)
      requires Conserved(other) && (op.SetHandle? || op.SetWithReference?) && op.i < |program.globals|
      modifies values`impl, program, program.globals[op.i], reference
      ensures Conserved(other) && program.Grew()
      ensures Now() == Put(old(Now()), op.key, op.i)
      ensures reference.value == if op.SetWithReference? then old(program.cells)[op.i] else old(reference.value)
    {
      if op.SetHandle? {
        DoSetHandle(op.key, op.i, null, other);
      } else {
        DoSetHandle(op.key, op.i, reference, other);
      }
    }

    // ---- Operations on the vector ----

    method DoAppendLocal(local: Cell, ghost other: multiset<Cell>)
      requires Conserved(other)
      modifies vector`impl, handles
      ensures Conserved(other) && handles.missed == old(handles.missed)
      ensures Simple(AppendLocal(local), old(Now()), Now())
    {
      SeqCellsAppend(vector.impl, local);
      Appended(MapCells(values.impl), program.owned, SeqCells(vector.impl), other, One(local));
      vector.AppendLocal(local);
    }

    method DoAppendHandle(i: nat, ghost other: multiset<Cell>)
      requires Conserved(other) && i < |program.globals|
      modifies vector`impl, program`cells, program`owned, program.globals[i]
      ensures Conserved(other) && program.globals == old(program.globals)
      ensures Simple(AppendHandle(i), old(Now()), Now())
    {
      ghost var before, c := vector.impl, program.globals[i].val;
      vector.AppendGlobal(program.globals[i]);
      program.RecordEmptied(i);
      SeqCellsAppend(before, c);
      Appended(MapCells(values.impl), program.owned, SeqCells(before), other, One(c));
    }

    method DoClearVector(ghost other: multiset<Cell>)
      requires Conserved(other)
      modifies vector`impl, handles
      ensures Conserved(other) && handles.missed == old(handles.missed)
      ensures Simple(ClearVector, old(Now()), Now())
    {
      SetApart(MapCells(values.impl), program.owned, SeqCells(vector.impl), other);
      vector.Clear(MapCells(values.impl) + program.owned + other);
      SetApart(MapCells(values.impl), program.owned, SeqCells(vector.impl), other);
    }

    method DoOnVector(op: Op, ghost other: multiset<Cell>)
      requires Conserved(other) && (op.AppendLocal? || op.AppendHandle? || op.ClearVector?)
      modifies handles, vector`impl, program`cells, program`owned, program.globals
      ensures Conserved(other) && handles.missed == old(handles.missed)
      ensures program.globals == old(program.globals) && Simple(op, old(Now()), Now())
    {
      match op
      case AppendLocal(local) => DoAppendLocal(local, other);
      case AppendHandle(i) => if i < |program.globals| { DoAppendHandle(i, other); }
      case ClearVector => DoClearVector(other);
    }

    // ---- Clearing the map ----

    /** `PersistentValueMapBase::Clear`. */
    method Clear(script: seq<Callback>, ghost other: multiset<Cell>)
      requires Conserved(other)
      modifies handles, values`impl, vector`impl, program, program.globals, reference
      ensures Conserved(other) && handles.missed == old(handles.missed) && program.Grew()
      ensures values.impl == map[] && Cleared(script, old(Now()), Now())
      decreases ScriptSize(script), 5
    {
      var unused := script;
      while values.impl != map[]
        invariant Conserved(other) && handles.missed == old(handles.missed) && program.Grew()
        invariant ScriptSize(unused) <= ScriptSize(script)
        invariant ClearGoesOn(script, old(Now()), unused, Now())
        decreases ScriptSize(unused), |values.impl|
      {
        assert forall i | 0 <= i < |program.globals| :: program.globals[i] in program.globals;
        ghost var before, left := Now(), unused;
        unused := Pass(unused, other);
        ClearStep(script, old(Now()), left, before, unused, Now());
      }
      ClearEnds(script, old(Now()), unused, Now());
    }

    /** One round of its outer loop: everything in the map is swapped out and disposed. */
    method Pass(script: seq<Callback>, ghost other: multiset<Cell>) returns (unused: seq<Callback>)
      requires Conserved(other) && values.impl != map[]
      modifies handles, values`impl, vector`impl, program, program.globals, reference
      ensures Conserved(other) && handles.missed == old(handles.missed) && program.Grew()
      ensures if Spent(script) then values.impl == map[] && Spent(unused) else ScriptSize(unused) < ScriptSize(script)
      ensures Drained(old(values.impl), script, old(Now()).(values := map[]), Now(), unused)
      decreases ScriptSize(script), 4
    {
      var drained := values.impl;
      SwapOut(SeqCells(vector.impl), other, MapCells(drained), program.owned);
      values.impl := map[];
      unused := Drain(drained, script, other);
    }

    /** Its inner loop: callbacks may fill the map anew, but not what is being drained. */
    method Drain(drained: map<Key, Cell>, script: seq<Callback>, ghost other: multiset<Cell>)
      returns (unused: seq<Callback>)
      requires values.impl == map[] && drained != map[] && Conserved(other + MapCells(drained))
      modifies handles, values`impl, vector`impl, program, program.globals, reference
      ensures Conserved(other) && handles.missed == old(handles.missed) && program.Grew()
      ensures if Spent(script) then values.impl == map[] && Spent(unused) else ScriptSize(unused) < ScriptSize(script)
      ensures Drained(drained, script, old(Now()), Now(), unused)
      decreases ScriptSize(script), 3
    {
      unused := script;
      var rest := drained;
      while rest != map[]
        invariant Conserved(other + MapCells(rest)) && handles.missed == old(handles.missed) && program.Grew()
        invariant Spent(script) ==> values.impl == map[] && Spent(unused)
        invariant ScriptSize(unused) <= ScriptSize(script)
        invariant |rest| < |drained| && !Spent(script) ==> ScriptSize(unused) < ScriptSize(script)
        invariant DrainGoesOn(drained, script, old(Now()), rest, unused, Now())
        decreases |rest|
      {
        assert forall i | 0 <= i < |program.globals| :: program.globals[i] in program.globals;
        var key;
        key, unused := DisposeNext(rest, unused, other, drained, script, old(Now()));
        rest := rest - {key};
      }
      NothingLeft(other);
      DrainEnds(drained, script, old(Now()), unused, Now());
    }

    // The iteration comes to some key. `drained`, `first` and `s` are what it began with.
    method DisposeNext(rest: map<Key, Cell>, script: seq<Callback>, ghost other: multiset<Cell>,
                       ghost drained: map<Key, Cell>, ghost first: seq<Callback>, ghost s: Contents)
      returns (key: Key, unused: seq<Callback>)
      requires rest != map[] && Conserved(other + MapCells(rest))
      requires DrainGoesOn(drained, first, s, rest, script, Now())
      modifies handles, values`impl, vector`impl, program, program.globals, reference
      ensures key in rest && |rest - {key}| < |rest| && Conserved(other + MapCells(rest - {key}))
      ensures handles.missed == old(handles.missed) && program.Grew()
      ensures Spent(script) ==> Spent(unused) && values.impl == old(values.impl)
      ensures !Spent(script) ==> ScriptSize(unused) < ScriptSize(script)
      ensures DrainGoesOn(drained, first, s, rest - {key}, unused, Now())
      decreases ScriptSize(script), 2
    {
      EmptyOrSomeKey(rest.Keys);
      key :| key in rest;
      unused := DisposeOne(rest, key, script, other);
      DrainStep(drained, first, s, rest, script, old(Now()), key, Now());
    }

    /** The body of the inner loop, for the entry under `key`. */
    method DisposeOne(rest: map<Key, Cell>, key: Key, script: seq<Callback>, ghost other: multiset<Cell>)
      returns (unused: seq<Callback>)
      requires key in rest && Conserved(other + MapCells(rest))
      modifies handles, values`impl, vector`impl, program, program.globals, reference
      ensures Conserved(other + MapCells(rest - {key})) && handles.missed == old(handles.missed) && program.Grew()
      ensures Spent(script) ==> Spent(unused) && values.impl == old(values.impl)
      ensures !Spent(script) ==> ScriptSize(unused) < ScriptSize(script)
      ensures unused == Later(script) && Disposed(rest[key], script, old(Now()), Now())
      decreases ScriptSize(script), 1
    {
      MapCellsRemove(rest, key);
      Regroup(other, MapCells(rest - {key}), One(Lookup(rest, key)));
      DisposeCell(rest[key], script, other + MapCells(rest - {key}));
      NextCallback(script);
      unused := Later(script);
    }

    /** The cell is released to a handle, the callback gets it, and what the callback leaves is dropped. */
    method DisposeCell(cell: Cell, script: seq<Callback>, ghost other: multiset<Cell>)
      requires Conserved(other + One(cell))
      modifies handles, values`impl, vector`impl, program, program.globals, reference
      ensures Conserved(other) && handles.missed == old(handles.missed) && program.Grew()
      ensures Disposed(cell, script, old(Now()), Now())
      decreases ScriptSize(script), 0
    {
      var value := PersistentValueMap.Release(cell);
      NextCallback(script);
      if !Spent(script) {
        RunCallback(value, script[0].actions, other);
      }
      DropValue(value, other);
    }

    // The destructor of a handle that is not among the program's.
    method DropValue(value: Global, ghost other: multiset<Cell>)
      requires value !in program.globals && Conserved(other + One(value.val))
      modifies handles, value
      ensures Conserved(other) && handles.missed == old(handles.missed)
      ensures Now() == old(Now())
    {
      Regroup(SeqCells(vector.impl), other, One(value.val));
      values.DestroyTemporary(value, program, SeqCells(vector.impl) + other);
    }

    /** `Traits::Dispose(isolate, value, key)`. What the callback does not keep dies with `value`. */
    method RunCallback(value: Global, actions: seq<Action>, ghost other: multiset<Cell>)
      requires value !in program.globals && Conserved(other + One(value.val))
      modifies handles, values`impl, vector`impl, program, program.globals, reference, value
      ensures Conserved(other + One(value.val)) && handles.missed == old(handles.missed)
      ensures program.Grew() && value !in program.globals
      ensures CalledBack(actions, old(Now()), old(value.val), Now(), value.val)
      decreases ActionsSize(actions), 0
    {
      if actions != [] {
        RunAction(value, actions[0], other);
        assert forall i | 0 <= i < |program.globals| :: program.globals[i] in program.globals;
        RunLater(value, actions, old(Now()), old(value.val), other);
      }
    }

    // The actions after the first, which has taken `s` and `v` to where things are now.
    method RunLater(value: Global, actions: seq<Action>, ghost s: Contents, ghost v: Cell, ghost other: multiset<Cell>)
      requires value !in program.globals && Conserved(other + One(value.val))
      requires actions != [] && Acted(actions[0], s, v, Now(), value.val)
      modifies handles, values`impl, vector`impl, program, program.globals, reference, value
      ensures Conserved(other + One(value.val)) && handles.missed == old(handles.missed)
      ensures program.Grew() && value !in program.globals
      ensures CalledBack(actions, s, v, Now(), value.val)
      decreases ActionsSize(actions[1..]), 1
    {
      ghost var m, x := Now(), value.val;
      RunCallback(value, actions[1..], other);
      ActedThenCalled(actions, s, v, m, x, Now(), value.val);
    }

    method RunAction(value: Global, action: Action, ghost other: multiset<Cell>)
      requires value !in program.globals && Conserved(other + One(value.val))
      modifies handles, values`impl, vector`impl, program, program.globals, reference, value
      ensures Conserved(other + One(value.val)) && handles.missed == old(handles.missed)
      ensures program.Grew() && value !in program.globals
      ensures Acted(action, old(Now()), old(value.val), Now(), value.val)
      decreases ActionSize(action), 0
    {
      if action.Use? {
        UseWith(value, action.op, other);
      } else {
        RunPlainAction(value, action, other);
      }
    }

    method RunPlainAction(value: Global, action: Action, ghost other: multiset<Cell>)
      requires value !in program.globals && Conserved(other + One(value.val)) && !action.Use?
      modifies handles, values`impl, program, value
      ensures Conserved(other + One(value.val)) && handles.missed == old(handles.missed)
      ensures program.Grew() && value !in program.globals
      ensures PlainActed(action, old(Now()), old(value.val), Now(), value.val)
    {
      match action
      case Insert(key, local) => DropIn(key, local, other + One(value.val));
      case PutBack(key) => GiveBack(key, value, other);
      case Erase(key) => DropOut(key, other + One(value.val));
      case Keep => KeepValue(value, other);
    }

    // `map.Set(key, local)`, dropping the old value.
    method DropIn(key: Key, local: Cell, ghost other: multiset<Cell>)
      requires Conserved(other)
      modifies handles, values`impl
      ensures Conserved(other) && handles.missed == old(handles.missed)
      ensures var s := old(Now());
              Now() == s.(values := s.values[key := local], created := s.created + One(local))
    {
      values.InsertLocal(key, local, program, SeqCells(vector.impl) + other);
    }

    // `map.Remove(key)`, dropping the value.
    method DropOut(key: Key, ghost other: multiset<Cell>)
      requires Conserved(other)
      modifies handles, values`impl
      ensures Conserved(other) && handles.missed == old(handles.missed)
      ensures Now() == old(Now()).(values := old(values.impl) - {key})
    {
      values.Discard(key, program, SeqCells(vector.impl) + other);
    }

    // `map.Set(key, value.Pass())`, dropping the old value.
    method GiveBack(key: Key, value: Global, ghost other: multiset<Cell>)
      requires value !in program.globals && Conserved(other + One(value.val))
      modifies handles, values`impl, value
      ensures value.val == NULL && Conserved(other + One(value.val)) && handles.missed == old(handles.missed)
      ensures Now() == old(Now()).(values := old(values.impl)[key := old(value.val)])
    {
      Regroup(SeqCells(vector.impl), other, One(value.val));
      values.InsertGlobal(key, value, program, SeqCells(vector.impl) + other);
      assert other + One(NULL) == other;
    }

    // The value becomes a handle of the program.
    method KeepValue(value: Global, ghost other: multiset<Cell>)
      requires value !in program.globals && Conserved(other + One(value.val))
      modifies program, value
      ensures value.val == NULL && Conserved(other + One(value.val))
      ensures program.Grew() && value !in program.globals
      ensures Now() == old(Now()).(handles := old(program.cells) + [old(value.val)])
    {
      Regroup(SeqCells(vector.impl), other, One(value.val));
      values.KeepGlobal(value, program, SeqCells(vector.impl) + other);
      assert other + One(NULL) == other;
    }

    // Whatever the program may do, while the value is in the callback's hands.
    method UseWith(value: Global, op: Op, ghost other: multiset<Cell>)
      requires value !in program.globals && Conserved(other + One(value.val))
      modifies handles, values`impl, vector`impl, program, program.globals, reference
      ensures Conserved(other + One(value.val)) && handles.missed == old(handles.missed)
      ensures value.val == old(value.val)
      ensures program.Grew() && value !in program.globals
      ensures Stepped(op, old(Now()), Now())
      decreases OpSize(op), 1
    {
      Do(op, other + One(value.val));
    }

    // ---- Runs ----

    // Everything that neither clears the map nor moves a handle into it.
    method DoOther(op: Op, ghost other: multiset<Cell>)
      requires Conserved(other) && !op.ClearMap? && !op.SetHandle? && !op.SetWithReference?
      modifies handles, values`impl, vector`impl, program, program.globals
      ensures Conserved(other) && handles.missed == old(handles.missed)
      ensures program.Grew() && Simple(op, old(Now()), Now())
    {
      if op.AppendLocal? || op.AppendHandle? || op.ClearVector? {
        DoOnVector(op, other);
      } else if op.SetLocal? {
        DoSetLocal(op.key, op.local, other);
      } else if op.Remove? {
        DoRemove(op.key, other);
      } else {
        DoOnHandles(op, other);
      }
    }

    method Do(op: Op, ghost other: multiset<Cell>)
      requires Conserved(other)
      modifies handles, values`impl, vector`impl, program, program.globals, reference
      ensures Conserved(other) && handles.missed == old(handles.missed)
      ensures program.Grew() && Stepped(op, old(Now()), Now())
      ensures op.SetWithReference? && op.i < |old(program.cells)| ==> reference.value == old(program.cells)[op.i]
      decreases OpSize(op), 0
    {
      if op.ClearMap? {
        Clear(op.script, other);
      } else if op.SetHandle? || op.SetWithReference? {
        if op.i < |program.globals| {
          DoPut(op, other);
        }
      } else {
        DoOther(op, other);
      }
    }

    /** In every run every registration keeps exactly one owner, no handle or container ever gives up a
        registration that is not there, and each operation does what it should to the contents. */
    method Run(ops: seq<Op>) returns (ghost trace: seq<Contents>)
      requires Conserved(multiset{})
      modifies handles, values`impl, vector`impl, program, program.globals, reference
      ensures Conserved(multiset{}) && handles.missed == old(handles.missed) && program.Grew()
      ensures Ran(ops, trace) && trace[0] == old(Now()) && trace[|ops|] == Now()
    {
      trace := [Now()];
      for k := 0 to |ops|
        invariant Conserved(multiset{}) && handles.missed == old(handles.missed) && program.Grew()
        invariant Ran(ops[..k], trace) && trace[0] == old(Now()) && trace[k] == Now()
      {
        assert forall i | 0 <= i < |program.globals| :: program.globals[i] in program.globals;
        Do(ops[k], multiset{});
        RanOneMore(ops, k, trace, Now());
        trace := trace + [Now()];
      }
      assert ops[..|ops|] == ops;
    }

    ghost function OwnedCells(): multiset<Cell>
      reads values, vector, program
    {
      MapCells(values.impl) + program.owned + SeqCells(vector.impl)
    }

    /** The destructor of the map, which is a Clear: what the owners held, and what callbacks created and
        nobody holds afterwards, has been disposed, each registration once. */
    method DestroyMap(script: seq<Callback>, ghost other: multiset<Cell>)
      requires Conserved(other)
      modifies handles, values`impl, vector`impl, program, program.globals, reference
      ensures Conserved(other) && handles.missed == old(handles.missed) && values.impl == map[] && program.Grew()
      ensures handles.disposed + OwnedCells() + old(handles.created) ==
              old(handles.disposed) + old(OwnedCells()) + handles.created
    {
      ghost var owned, created, disposed := OwnedCells(), handles.created, handles.disposed;
      BalanceOf(other);
      Clear(script, other);
      BalanceOf(other);
      Ledger(created, handles.created, disposed, handles.disposed, owned, OwnedCells(), other);
    }

    lemma BalanceOf(other: multiset<Cell>)
      requires Conserved(other)
      ensures OwnedCells() + other + handles.disposed == handles.created
    {
      assert OwnedCells() + other == MapCells(values.impl) + program.owned + (SeqCells(vector.impl) + other);
    }

    /** A clear whose callbacks keep everything: each cell of the map becomes a handle, nothing is registered
        anew, and nothing is disposed. */
    method ClearIntoHandles(script: seq<Callback>, ghost other: multiset<Cell>) returns (ghost order: seq<Key>)
      requires Conserved(other) && KeepsAll(script) && |script| >= |values.impl|
      modifies handles, values`impl, vector`impl, program, program.globals, reference
      ensures Conserved(other) && Lists(order, old(values.impl).Keys)
      ensures values.impl == map[] && vector.impl == old(vector.impl)
      ensures program.cells == old(program.cells) + Looked(old(values.impl), order)
      ensures handles.registered == old(handles.registered) && handles.disposed == old(handles.disposed)
    {
      ghost var before, owned, registered := Now(), program.owned, handles.registered;
      Clear(script, other);
      order := ClearKeeps(script, before, Now());
      LookedCells(before.values, order);
      SeqCellsConcat(before.handles, Looked(before.values, order));
      SwappedOwners(MapCells(before.values), owned, SeqCells(vector.impl) + other);
      assert handles.registered == registered;
      Unspent(handles.registered, handles.disposed, old(handles.disposed));
    }

    /** Destroying the containers and the handles leaves nothing registered. */
    method Finish(script: seq<Callback>)
      requires Conserved(multiset{})
      modifies handles, values`impl, vector`impl, program, program.globals, reference
      ensures handles.Valid() && handles.missed == old(handles.missed)
      ensures handles.persistentValues == map[] && handles.disposed == handles.created
    {
      ClearBoth(script);
      assert forall i | 0 <= i < |program.globals| :: program.globals[i] in program.globals;
      DestroyHandles();
      assert handles.persistentValues.Keys == {};
    }

    method ClearBoth(script: seq<Callback>)
      requires Conserved(multiset{})
      modifies handles, values`impl, vector`impl, program, program.globals, reference
      ensures Conserved(multiset{}) && handles.missed == old(handles.missed) && program.Grew()
      ensures values.impl == map[] && vector.impl == []
    {
      Clear(script, multiset{});
      DoClearVector(multiset{});
    }

    method DestroyHandles()
      requires Conserved(multiset{}) && values.impl == map[] && vector.impl == []
      modifies handles, program, program.globals
      ensures Conserved(multiset{}) && handles.missed == old(handles.missed) && handles.registered == multiset{}
    {
      while |program.globals| > 0
        invariant Conserved(multiset{}) && handles.missed == old(handles.missed) && program.Grew()
        decreases |program.globals|
      {
        assert program.globals[0] in program.globals;
        DoDestroyHandle(0, multiset{});
      }
    }
  }
}
