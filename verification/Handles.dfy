/** Global handles: the reference-counted registry of src/api/global-handles.cc that the `V8::` functions
    of src/api.cc forward to, and the move-only `Global` of include/v8.h. A storage cell is known by its
    address; 0 is no cell. */
module Handles {
  type Cell = nat

  const NULL: Cell := 0

  // What a handle with this `val_` owns.
  function One(c: Cell): multiset<Cell> {
    if c == NULL then multiset{} else multiset{c}
  }

  /** `EscargotShim::GlobalHandles`. `registered` counts the handles each cell is registered for;
      `created`, `disposed` and `missed` log the calls. */
  class GlobalHandles {
    var persistentValues: map<Cell, nat>
    ghost var registered: multiset<Cell>
    ghost var created: multiset<Cell>
    ghost var disposed: multiset<Cell>
    ghost var missed: nat

    ghost predicate Valid()
      reads this
    {
      && (forall c :: c in persistentValues <==> c in registered)
      && (forall c | c in persistentValues :: persistentValues[c] == registered[c])
      && registered + disposed == created
    }

    constructor ()
      ensures Valid() && registered == created == disposed == multiset{} && missed == 0
    {
      persistentValues := map[];
      registered, created, disposed, missed := multiset{}, multiset{}, multiset{}, 0;
    }

    method Create(c: Cell)
      requires Valid()
      modifies this
      ensures Valid() && registered == old(registered) + multiset{c}
      ensures created == old(created) + multiset{c} && disposed == old(disposed) && missed == old(missed)
    {
      if c !in persistentValues {
        persistentValues := persistentValues[c := 1];
      } else {
        persistentValues := persistentValues[c := persistentValues[c] + 1];
      }
      registered, created := registered + multiset{c}, created + multiset{c};
    }

    /** Gives up one registration; false when there is none. */
    method Destroy(c: Cell) returns (found: bool)
      requires Valid()
      modifies this
      ensures Valid() && (found <==> c in old(registered))
      ensures registered == old(registered) - multiset{c} && created == old(created)
      ensures found ==> disposed == old(disposed) + multiset{c} && missed == old(missed)
      ensures !found ==> disposed == old(disposed) && missed == old(missed) + 1
    {
      if c in persistentValues {
        if persistentValues[c] == 1 {
          persistentValues := persistentValues - {c};
        } else {
          persistentValues := persistentValues[c := persistentValues[c] - 1];
        }
        registered, disposed := registered - multiset{c}, disposed + multiset{c};
        return true;
      }
      missed := missed + 1;
      return false;
    }
  }

  /** `v8::Global`. Destruction is an explicit call of Reset. */
  class Global {
    var val: Cell

    constructor Empty()
      ensures val == NULL
    {
      val := NULL;
    }

    /** `Global(isolate, local)`, through `PersistentBase::New`. */
    constructor FromLocal(h: GlobalHandles, local: Cell)
      requires h.Valid()
      modifies h
      ensures h.Valid() && val == local
      ensures h.registered == old(h.registered) + One(local)
      ensures h.missed == old(h.missed)
      ensures h.created == old(h.created) + One(local)
    {
      val := local;
      new;
      if local != NULL {
        h.Create(local);
      }
    }

    /** The move constructor. */
    constructor MoveFrom(other: Global)
      modifies other
      ensures val == old(other.val) && other.val == NULL
    {
      val := other.val;
      new;
      if other.val != NULL {
        other.val := NULL;
      }
    }

    method Pass() returns (g: Global)
      modifies this
      ensures fresh(g) && g.val == old(val) && val == NULL
    {
      g := new Global.MoveFrom(this);
    }

    /** Disposes the cell. A handle that owns a registered cell is never missed. */
    method Reset(h: GlobalHandles)
      requires h.Valid() && One(val) <= h.registered
      modifies this, h
      ensures h.Valid() && val == NULL
      ensures h.registered == old(h.registered) - One(old(val))
      ensures h.missed == old(h.missed) && h.created == old(h.created)
    {
      if val == NULL {
        return;
      }
      assert val in One(val);
      var found := h.Destroy(val);
      val := NULL;
    }

    /** `Reset(isolate, local)`. */
    method ResetTo(h: GlobalHandles, local: Cell)
      requires h.Valid() && One(val) <= h.registered
      modifies this, h
      ensures h.Valid() && val == local
      ensures h.registered == old(h.registered) - One(old(val)) + One(local)
      ensures h.missed == old(h.missed)
      ensures h.created == old(h.created) + One(local)
    {
      Reset(h);
      if local == NULL {
        return;
      }
      h.Create(local);
      val := local;
    }

    /** `Reset(isolate, persistent)`: a further registration of the cell of `other`, which is empty by then
        when it is this handle itself. */
    method ResetToCopy(h: GlobalHandles, other: Global)
      requires h.Valid() && One(val) <= h.registered
      modifies this, h
      ensures h.Valid() && h.missed == old(h.missed)
      ensures val == if this == other then NULL else other.val
      ensures h.created == old(h.created) + One(val)
      ensures h.registered == old(h.registered) - One(old(val)) + One(val)
    {
      Reset(h);
      if other.val == NULL {
        return;
      }
      h.Create(other.val);
      val := other.val;
    }

    /** Move assignment; assigning a handle to itself does nothing. */
    method MoveAssign(h: GlobalHandles, rhs: Global)
      requires h.Valid() && One(val) <= h.registered
      modifies this, rhs, h
      ensures h.Valid() && h.missed == old(h.missed) && h.created == old(h.created)
      ensures this == rhs ==> val == old(val) && h.registered == old(h.registered)
      ensures this != rhs ==>
                && val == old(rhs.val) && rhs.val == NULL
                && h.registered == old(h.registered) - One(old(val))
    {
      if this != rhs {
        Reset(h);
        if rhs.val != NULL {
          val := rhs.val;
          rhs.val := NULL;
        }
      }
    }
  }
}
