/** The live `Global` handles of a program. */
module Programs {
  import opened CellAccounts
  import opened Handles

  /** `cells` mirrors what the handles hold, `owned` is what they own together. */
  class Program {
    var globals: seq<Global>
    ghost var cells: seq<Cell>
    ghost var owned: multiset<Cell>

    ghost predicate Valid()
      reads this, globals
    {
      && |cells| == |globals|
      && (forall i | 0 <= i < |globals| :: globals[i].val == cells[i])
      && (forall i, j | 0 <= i < j < |globals| :: globals[i] != globals[j])
      && owned == SeqCells(cells)
    }

    /** No handle that existed before was added. */
    twostate predicate Grew()
      reads this
    {
      forall g | g in globals :: g in old(globals) || fresh(g)
    }

    constructor ()
      ensures Valid() && globals == [] && owned == multiset{}
    {
      globals, cells, owned := [], [], multiset{};
    }

    // A further handle.
    method Push(g: Global)
      requires Valid() && g !in globals
      modifies this
      ensures Valid() && globals == old(globals) + [g]
      ensures cells == old(cells) + [g.val] && owned == old(owned) + One(g.val)
    {
      SeqCellsAppend(cells, g.val);
      globals, cells, owned := globals + [g], cells + [g.val], owned + One(g.val);
    }

    /** A further handle, move-constructed from `value`. */
    method MoveIn(value: Global)
      requires Valid() && value !in globals
      modifies this, value
      ensures Valid() && Grew() && value !in globals
      ensures value.val == NULL && owned == old(owned) + One(old(value.val))
      ensures |globals| == |old(globals)| + 1 && old(globals) <= globals
      ensures cells == old(cells) + [old(value.val)]
    {
      var kept := value.Pass();
      Push(kept);
    }

    /** Everything registered belongs to a handle here or to `other` owners. */
    ghost predicate Conserved(h: GlobalHandles, other: multiset<Cell>)
      reads this, globals, h
    {
      h.Valid() && Valid() && h.registered == owned + other
    }

    // Handle `i` holds `c` now, and the others are as they were.
    ghost method Record(i: nat, c: Cell)
      requires |cells| == |globals| && i < |globals| && globals[i].val == c
      requires forall k | 0 <= k < |globals| && k != i :: globals[k].val == cells[k]
      requires forall k, l | 0 <= k < l < |globals| :: globals[k] != globals[l]
      requires owned == SeqCells(cells)
      modifies this`cells, this`owned
      ensures Valid()
      ensures cells == old(cells)[i := c] && One(old(cells)[i]) <= old(owned)
      ensures owned + One(old(cells)[i]) == old(owned) + One(c)
    {
      SeqCellsUpdate(cells, i, c);
      SeqCellsRemove(cells, i);
      cells := cells[i := c];
      owned := SeqCells(cells);
    }

    // Handle `i` was moved from.
    ghost method RecordEmptied(i: nat)
      requires |cells| == |globals| && i < |globals| && globals[i].val == NULL
      requires forall k | 0 <= k < |globals| && k != i :: globals[k].val == cells[k]
      requires forall k, l | 0 <= k < l < |globals| :: globals[k] != globals[l]
      requires owned == SeqCells(cells)
      modifies this`cells, this`owned
      ensures Valid() && cells == old(cells)[i := NULL] && owned + One(old(cells)[i]) == old(owned)
    {
      ghost var before := owned;
      Record(i, NULL);
      assert before + One(NULL) == before;
    }

    // Handle `i` took over what `j` held.
    ghost method RecordMove(i: nat, j: nat)
      requires |cells| == |globals| && i < |globals| && j < |globals| && i != j
      requires globals[i].val == cells[j] && globals[j].val == NULL
      requires forall k | 0 <= k < |globals| && k != i && k != j :: globals[k].val == cells[k]
      requires forall k, l | 0 <= k < l < |globals| :: globals[k] != globals[l]
      requires owned == SeqCells(cells)
      modifies this`cells, this`owned
      ensures Valid() && owned + One(old(cells)[i]) == old(owned)
      ensures cells == old(cells)[i := old(cells)[j]][j := NULL]
    {
      SeqCellsMove(cells, i, j);
      cells := cells[i := cells[j]][j := NULL];
      owned := SeqCells(cells);
    }

    // Handle `i` goes out of scope.
    method Drop(i: nat)
      requires Valid() && i < |globals|
      modifies this
      ensures Valid() && owned + One(old(cells)[i]) == old(owned)
      ensures globals == old(globals)[..i] + old(globals)[i + 1..]
      ensures cells == old(cells)[..i] + old(cells)[i + 1..]
    {
      SeqCellsRemove(cells, i);
      globals := globals[..i] + globals[i + 1..];
      cells := cells[..i] + cells[i + 1..];
      owned := SeqCells(cells);
    }

    lemma OwnsAt(i: nat)
      requires Valid() && i < |globals|
      ensures One(globals[i].val) <= owned
    {
      SeqCellsRemove(cells, i);
    }

    /** `new Global(isolate, local)`. */
    method New(h: GlobalHandles, local: Cell, ghost other: multiset<Cell>)
      requires Conserved(h, other)
      modifies this, h
      ensures Conserved(h, other) && h.missed == old(h.missed)
      ensures h.created == old(h.created) + One(local)
      ensures |globals| == |old(globals)| + 1 && globals[..|old(globals)|] == old(globals)
      ensures cells == old(cells) + [local] && Grew()
    {
      var g := new Global.FromLocal(h, local);
      Commute(owned, other, One(local));
      Push(g);
    }

    /** `globals[i].Reset(isolate, local)`; with an empty local a plain `Reset()`. */
    method ResetTo(h: GlobalHandles, i: nat, local: Cell, ghost other: multiset<Cell>)
      requires Conserved(h, other) && i < |globals|
      modifies h, this`cells, this`owned, globals[i]
      ensures Conserved(h, other) && h.missed == old(h.missed)
      ensures h.created == old(h.created) + One(local)
      ensures cells == old(cells)[i := local]
    {
      ghost var before, c := owned, globals[i].val;
      OwnsAt(i);
      globals[i].ResetTo(h, local);
      Record(i, local);
      Replaced(before, other, One(c), One(local), owned);
    }

    /** `globals[i].Reset(isolate, globals[j])`. */
    method ResetToCopy(h: GlobalHandles, i: nat, j: nat, ghost other: multiset<Cell>) returns (ghost d: Cell)
      requires Conserved(h, other) && i < |globals| && j < |globals|
      modifies h, this`cells, this`owned, globals[i]
      ensures Conserved(h, other) && h.missed == old(h.missed)
      ensures d == if i == j then NULL else old(cells)[j]
      ensures h.created == old(h.created) + One(d) && cells == old(cells)[i := d]
    {
      ghost var before, c := owned, globals[i].val;
      OwnsAt(i);
      globals[i].ResetToCopy(h, globals[j]);
      d := globals[i].val;
      Record(i, d);
      Replaced(before, other, One(c), One(d), owned);
    }

    /** `globals[i] = std::move(globals[j])`. */
    method MoveAssign(h: GlobalHandles, i: nat, j: nat, ghost other: multiset<Cell>)
      requires Conserved(h, other) && i < |globals| && j < |globals|
      modifies h, this`cells, this`owned, globals[i], globals[j]
      ensures Conserved(h, other) && h.missed == old(h.missed)
      ensures h.created == old(h.created)
      ensures cells == if i == j then old(cells) else old(cells)[i := old(cells)[j]][j := NULL]
    {
      OwnsAt(i);
      globals[i].MoveAssign(h, globals[j]);
      if i != j {
        assert globals[i] != globals[j];
        ghost var before, c := owned, cells[i];
        RecordMove(i, j);
        Released(before, other, One(c), owned);
      }
    }

    // The destructor of a handle that is not among the globals.
    method Dispose(h: GlobalHandles, g: Global, ghost other: multiset<Cell>)
      requires g !in globals && Conserved(h, other + One(g.val))
      modifies h, g
      ensures Conserved(h, other) && h.missed == old(h.missed)
      ensures h.created == old(h.created) && g.val == NULL
    {
      assert One(g.val) <= other + One(g.val);
      g.Reset(h);
    }

    /** The destructor of handle `i`. */
    method Destroy(h: GlobalHandles, i: nat, ghost other: multiset<Cell>)
      requires Conserved(h, other) && i < |globals|
      modifies h, this, globals[i]
      ensures Conserved(h, other) && h.missed == old(h.missed)
      ensures h.created == old(h.created)
      ensures globals == old(globals)[..i] + old(globals)[i + 1..] && Grew()
      ensures cells == old(cells)[..i] + old(cells)[i + 1..]
    {
      var g := globals[i];
      Drop(i);
      InTransit(owned, other, One(g.val));
      Dispose(h, g, other);
    }
  }
}
