/** The operations of a program that uses handles, a non-weak map and a vector together, disposal callbacks
    included, and what each of them does to the contents. */
module Operations {
  import opened CellAccounts
  import opened Handles

  /** One use of the interface. Handles are named by position; a position that does not exist makes the
      operation do nothing. What a map operation returns becomes a new handle. `script` says what the
      successive calls of the disposal callback do; once it is used up they do nothing. */
  datatype Op =
    | NewHandle(local: Cell)
    | ResetHandle(i: nat, local: Cell)
    | ResetToHandle(i: nat, j: nat)
    | MoveHandle(i: nat, j: nat)
    | DestroyHandle(i: nat)
    | SetLocal(key: Key, local: Cell)
    | SetHandle(key: Key, i: nat)
    | SetWithReference(key: Key, i: nat)
    | Remove(key: Key)
    | ClearMap(script: seq<Callback>)
    | AppendLocal(local: Cell)
    | AppendHandle(i: nat)
    | ClearVector

  /** What a disposal callback may do: put a value into the map or take one out, dropping the old one, put
      the disposed value back under a key, move it to a handle of its own, or anything the program may do. */
  datatype Action =
    | Insert(key: Key, local: Cell)
    | PutBack(key: Key)
    | Erase(key: Key)
    | Keep
    | Use(op: Op)

  datatype Callback = Callback(actions: seq<Action>)

  // ---- Callbacks that call back ----

  function OpSize(op: Op): nat {
    match op
    case ClearMap(script) => 1 + ScriptSize(script)
    case _ => 1
  }

  function ScriptSize(script: seq<Callback>): nat {
    if script == [] then 0 else 1 + CallbackSize(script[0]) + ScriptSize(script[1..])
  }

  function CallbackSize(callback: Callback): nat {
    ActionsSize(callback.actions)
  }

  function ActionsSize(actions: seq<Action>): nat {
    if actions == [] then 0 else 1 + ActionSize(actions[0]) + ActionsSize(actions[1..])
  }

  function ActionSize(action: Action): nat {
    match action
    case Use(op) => 1 + OpSize(op)
    case _ => 1
  }

  predicate Spent(script: seq<Callback>) {
    |script| == 0
  }

  function Later(script: seq<Callback>): seq<Callback> {
    if Spent(script) then [] else script[1..]
  }

  lemma NextCallback(script: seq<Callback>)
    ensures !Spent(script) ==> ActionsSize(script[0].actions) < ScriptSize(script)
    ensures if Spent(script) then Later(script) == script else ScriptSize(Later(script)) < ScriptSize(script)
  {
    if !Spent(script) {
      assert CallbackSize(script[0]) == ActionsSize(script[0].actions);
    }
  }

  // ---- What operations do ----

  /** What the containers and the handles hold, and the registrations made so far. */
  datatype Contents = Contents(values: map<Key, Cell>, vector: seq<Cell>, handles: seq<Cell>, created: multiset<Cell>)

  /** What an operation other than a clear does to them. */
  ghost predicate Simple(op: Op, s: Contents, t: Contents)
    requires !op.ClearMap?
  {
    var m, v, h, r := s.values, s.vector, s.handles, s.created;
    match op
    case NewHandle(local) => t == s.(handles := h + [local], created := r + One(local))
    case ResetHandle(i, local) =>
      t == if i < |h| then s.(handles := h[i := local], created := r + One(local)) else s
    case ResetToHandle(i, j) =>
      t == if i < |h| && j < |h| then ResetTo(s, i, if i == j then NULL else h[j]) else s
    case MoveHandle(i, j) =>
      t == if i < |h| && j < |h| && i != j then s.(handles := h[i := h[j]][j := NULL]) else s
    case DestroyHandle(i) => t == if i < |h| then s.(handles := h[..i] + h[i + 1..]) else s
    case SetLocal(key, local) => t == Took(s.(created := r + One(local)), key, local)
    case SetHandle(key, i) => t == if i < |h| then Put(s, key, i) else s
    case SetWithReference(key, i) => t == if i < |h| then Put(s, key, i) else s
    case Remove(key) => t == s.(values := m - {key}, handles := h + [Lookup(m, key)])
    case AppendLocal(local) => t == s.(vector := v + [local], created := r + One(local))
    case AppendHandle(i) => t == if i < |h| then s.(vector := v + [h[i]], handles := h[i := NULL]) else s
    case ClearVector => t == s.(vector := [])
  }

  ghost function ResetTo(s: Contents, i: nat, c: Cell): Contents
    requires i < |s.handles|
  {
    s.(handles := s.handles[i := c], created := s.created + One(c))
  }

  // The map takes a cell and the replaced one goes into a new handle.
  ghost function Took(s: Contents, key: Key, c: Cell): Contents {
    s.(values := s.values[key := c], handles := s.handles + [Lookup(s.values, key)])
  }

  // The cell of handle `i` goes into the map and the replaced one into a new handle.
  ghost function Put(s: Contents, key: Key, i: nat): Contents
    requires i < |s.handles|
  {
    Took(s.(handles := s.handles[i := NULL]), key, s.handles[i])
  }

  /** What any operation does. */
  ghost predicate Stepped(op: Op, s: Contents, t: Contents)
    decreases OpSize(op), 0
  {
    if op.ClearMap? then Cleared(op.script, s, t) else Simple(op, s, t)
  }

  // ---- What callbacks do ----

  /** An action with the disposed value `v`, of which it leaves `w` behind. */
  ghost predicate PlainActed(action: Action, s: Contents, v: Cell, t: Contents, w: Cell)
    requires !action.Use?
  {
    match action
    case Insert(key, local) => t == s.(values := s.values[key := local], created := s.created + One(local)) && w == v
    case PutBack(key) => t == s.(values := s.values[key := v]) && w == NULL
    case Erase(key) => t == s.(values := s.values - {key}) && w == v
    case Keep => t == s.(handles := s.handles + [v]) && w == NULL
  }

  ghost predicate Acted(action: Action, s: Contents, v: Cell, t: Contents, w: Cell)
    decreases ActionSize(action), 0
  {
    if action.Use? then Stepped(action.op, s, t) && w == v else PlainActed(action, s, v, t, w)
  }

  /** One call of the callback: its actions one after the other. */
  ghost predicate CalledBack(actions: seq<Action>, s: Contents, v: Cell, t: Contents, w: Cell)
    decreases ActionsSize(actions), 0
  {
    if actions == [] then t == s && w == v
    else exists m, x :: Acted(actions[0], s, v, m, x) && CalledBack(actions[1..], m, x, t, w)
  }

  lemma ActedThenCalled(actions: seq<Action>, s: Contents, v: Cell, m: Contents, x: Cell, t: Contents, w: Cell)
    requires actions != [] && Acted(actions[0], s, v, m, x) && CalledBack(actions[1..], m, x, t, w)
    ensures CalledBack(actions, s, v, t, w)
  {
  }

  /** One cell is disposed: the next callback gets it, and what the callback leaves of it is dropped. */
  ghost predicate Disposed(v: Cell, script: seq<Callback>, s: Contents, t: Contents)
    decreases ScriptSize(script), 1
  {
    NextCallback(script);
    if Spent(script) then t == s else exists w :: CalledBack(script[0].actions, s, v, t, w)
  }

  /** The entries `rest` are disposed in some order of their keys, each with a callback of its own, which
      leaves the callbacks `unused`. */
  ghost predicate Drained(rest: map<Key, Cell>, script: seq<Callback>, s: Contents, t: Contents, unused: seq<Callback>)
    decreases ScriptSize(script), 2, |rest|
  {
    NextCallback(script);
    if rest == map[] then t == s && unused == script
    else
      exists key, m :: key in rest && Disposed(rest[key], script, s, m) &&
                       Drained(rest - {key}, Later(script), m, t, unused)
  }

  lemma DisposedThenDrained(rest: map<Key, Cell>, script: seq<Callback>, s: Contents, key: Key, m: Contents, t: Contents,
                            unused: seq<Callback>)
    requires key in rest && Disposed(rest[key], script, s, m) && Drained(rest - {key}, Later(script), m, t, unused)
    ensures Drained(rest, script, s, t, unused)
  {
  }

  /** A clear: as long as the map is not empty, all its entries are taken out and disposed. */
  ghost predicate Cleared(script: seq<Callback>, s: Contents, t: Contents)
    decreases ScriptSize(script), 3
  {
    if s.values == map[] then t == s
    else
      exists m, unused :: Drained(s.values, script, s.(values := map[]), m, unused) &&
                          if ScriptSize(unused) < ScriptSize(script) then Cleared(unused, m, t) else t == m
  }

  lemma DrainedThenCleared(script: seq<Callback>, s: Contents, m: Contents, unused: seq<Callback>, t: Contents)
    requires s.values != map[] && Drained(s.values, script, s.(values := map[]), m, unused) && Cleared(unused, m, t)
    requires ScriptSize(unused) < ScriptSize(script) || m.values == map[]
    ensures Cleared(script, s, t)
  {
    if ScriptSize(unused) < ScriptSize(script) {
    } else {
      assert t == m;
    }
  }

  // ---- Loops ----

  /** With the entries `rest` still to come, whatever disposing them does completes the whole. */
  ghost predicate DrainGoesOn(drained: map<Key, Cell>, script: seq<Callback>, s: Contents, rest: map<Key, Cell>,
                              unused: seq<Callback>, now: Contents)
  {
    forall t, u :: Drained(rest, unused, now, t, u) ==> Drained(drained, script, s, t, u)
  }

  lemma DrainStep(drained: map<Key, Cell>, script: seq<Callback>, s: Contents, rest: map<Key, Cell>,
                  unused: seq<Callback>, now: Contents, key: Key, next: Contents)
    requires DrainGoesOn(drained, script, s, rest, unused, now)
    requires key in rest && Disposed(rest[key], unused, now, next)
    ensures DrainGoesOn(drained, script, s, rest - {key}, Later(unused), next)
  {
    forall t, u | Drained(rest - {key}, Later(unused), next, t, u)
      ensures Drained(drained, script, s, t, u)
    {
      DisposedThenDrained(rest, unused, now, key, next, t, u);
    }
  }

  lemma DrainEnds(drained: map<Key, Cell>, script: seq<Callback>, s: Contents, unused: seq<Callback>, now: Contents)
    requires DrainGoesOn(drained, script, s, map[], unused, now)
    ensures Drained(drained, script, s, now, unused)
  {
    assert Drained(map[], unused, now, now, unused);
  }

  ghost predicate ClearGoesOn(script: seq<Callback>, s: Contents, unused: seq<Callback>, now: Contents) {
    forall t :: Cleared(unused, now, t) ==> Cleared(script, s, t)
  }

  lemma ClearStep(script: seq<Callback>, s: Contents, unused: seq<Callback>, now: Contents, unused': seq<Callback>,
                  next: Contents)
    requires ClearGoesOn(script, s, unused, now)
    requires now.values != map[] && Drained(now.values, unused, now.(values := map[]), next, unused')
    requires ScriptSize(unused') < ScriptSize(unused) || next.values == map[]
    ensures ClearGoesOn(script, s, unused', next)
  {
    forall t | Cleared(unused', next, t)
      ensures Cleared(script, s, t)
    {
      DrainedThenCleared(unused, now, next, unused', t);
    }
  }

  lemma ClearEnds(script: seq<Callback>, s: Contents, unused: seq<Callback>, now: Contents)
    requires ClearGoesOn(script, s, unused, now) && now.values == map[]
    ensures Cleared(script, s, now)
  {
    assert Cleared(unused, now, now);
  }

  // ---- Runs ----

  /** `trace` lists the contents before, between and after the operations. */
  ghost predicate Ran(ops: seq<Op>, trace: seq<Contents>) {
    |trace| == |ops| + 1 && forall k | 0 <= k < |ops| :: Stepped(ops[k], trace[k], trace[k + 1])
  }

  lemma RanOneMore(ops: seq<Op>, k: nat, trace: seq<Contents>, next: Contents)
    requires k < |ops| && Ran(ops[..k], trace) && Stepped(ops[k], trace[k], next)
    ensures Ran(ops[..k + 1], trace + [next])
  {
    forall l | 0 <= l < k
      ensures Stepped(ops[..k + 1][l], (trace + [next])[l], (trace + [next])[l + 1])
    {
      assert ops[..k][l] == ops[l];
      assert Stepped(ops[..k][l], trace[l], trace[l + 1]);
    }
  }
}
