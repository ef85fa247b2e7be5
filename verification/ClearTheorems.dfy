/** What follows about a clear, whatever the callbacks and for particular ones. */
module ClearTheorems {
  import opened CellAccounts
  import opened Handles
  import opened Operations

  // ---- A clear leaves the map empty ----

  lemma OneKeyLess(rest: map<Key, Cell>, key: Key)
    requires key in rest
    ensures |rest - {key}| == |rest| - 1
  {
    assert (rest - {key}).Keys == rest.Keys - {key};
    assert |rest| == |rest.Keys| && |rest - {key}| == |(rest - {key}).Keys|;
  }

  /** Without callbacks a drain changes nothing; with some left it uses one at least. */
  lemma {:induction false} DrainUsesCallbacks(rest: map<Key, Cell>, script: seq<Callback>, s: Contents, t: Contents,
                                              unused: seq<Callback>)
    requires Drained(rest, script, s, t, unused) && rest != map[]
    ensures if Spent(script) then t == s && unused == script else ScriptSize(unused) < ScriptSize(script)
    decreases |rest|
  {
    var key, m :| key in rest && Disposed(rest[key], script, s, m) && Drained(rest - {key}, Later(script), m, t, unused);
    NextCallback(script);
    if rest - {key} != map[] {
      OneKeyLess(rest, key);
      DrainUsesCallbacks(rest - {key}, Later(script), m, t, unused);
    }
  }

  lemma {:induction false} ClearedEmpties(script: seq<Callback>, s: Contents, t: Contents)
    requires Cleared(script, s, t)
    ensures t.values == map[]
    decreases ScriptSize(script)
  {
    if s.values != map[] {
      var m, unused :| Drained(s.values, script, s.(values := map[]), m, unused) &&
        if ScriptSize(unused) < ScriptSize(script) then Cleared(unused, m, t) else t == m;
      DrainUsesCallbacks(s.values, script, s.(values := map[]), m, unused);
      if ScriptSize(unused) < ScriptSize(script) {
        ClearedEmpties(unused, m, t);
      }
    }
  }

  // ---- Callbacks that do nothing ----

  /** Once there are no callbacks left, what the map holds is disposed and nothing else happens. */
  lemma ClearedWithoutCallbacks(s: Contents, t: Contents)
    requires Cleared([], s, t)
    ensures t == s.(values := map[])
  {
    if s.values != map[] {
      var m, unused :| Drained(s.values, [], s.(values := map[]), m, unused) &&
        if ScriptSize(unused) < ScriptSize([]) then Cleared(unused, m, t) else t == m;
      DrainUsesCallbacks(s.values, [], s.(values := map[]), m, unused);
    }
  }

  // ---- Callbacks that keep what they get ----

  predicate KeepsAll(script: seq<Callback>) {
    forall i | 0 <= i < |script| :: script[i].actions == [Keep]
  }

  /** `order` lists the keys, each once. */
  ghost predicate Lists(order: seq<Key>, keys: set<Key>) {
    && (forall k :: k in order <==> k in keys)
    && forall i, j | 0 <= i < j < |order| :: order[i] != order[j]
  }

  function Looked(m: map<Key, Cell>, order: seq<Key>): seq<Cell> {
    seq(|order|, i requires 0 <= i < |order| => Lookup(m, order[i]))
  }

  lemma KeepingOne(v: Cell, s: Contents, t: Contents, w: Cell)
    requires CalledBack([Keep], s, v, t, w)
    ensures t == s.(handles := s.handles + [v])
  {
    var m, x :| Acted(Keep, s, v, m, x) && CalledBack([Keep][1..], m, x, t, w);
    assert [Keep][1..] == [];
  }

  lemma ListedFirst(keys: set<Key>, key: Key, later: seq<Key>)
    requires key in keys && Lists(later, keys - {key})
    ensures Lists([key] + later, keys)
  {
    var order := [key] + later;
    assert forall i | 0 <= i < |later| :: order[i + 1] == later[i] && later[i] in later;
  }

  lemma LookedFirst(rest: map<Key, Cell>, key: Key, later: seq<Key>)
    requires key in rest && Lists(later, rest.Keys - {key})
    ensures Looked(rest, [key] + later) == [rest[key]] + Looked(rest - {key}, later)
  {
    forall i | 0 <= i < |later|
      ensures Lookup(rest, later[i]) == Lookup(rest - {key}, later[i])
    {
      assert later[i] in later;
    }
  }

  lemma KeysWithout(rest: map<Key, Cell>, key: Key)
    ensures (rest - {key}).Keys == rest.Keys - {key}
  {
  }

  lemma DisposedByCallback(v: Cell, script: seq<Callback>, s: Contents, t: Contents) returns (w: Cell)
    requires Disposed(v, script, s, t) && !Spent(script)
    ensures CalledBack(script[0].actions, s, v, t, w)
  {
    assert exists x :: CalledBack(script[0].actions, s, v, t, x);
    w :| CalledBack(script[0].actions, s, v, t, w);
  }

  lemma DisposeKeeps(v: Cell, script: seq<Callback>, s: Contents, t: Contents)
    requires Disposed(v, script, s, t) && KeepsAll(script) && !Spent(script)
    ensures t == s.(handles := s.handles + [v])
  {
    var w := DisposedByCallback(v, script, s, t);
    KeepingOne(v, s, t, w);
  }

  lemma Joined(a: seq<Cell>, b: seq<Cell>, c: seq<Cell>)
    ensures (a + b) + c == a + (b + c)
  {
  }

  lemma {:induction false} DrainKeeps(rest: map<Key, Cell>, script: seq<Callback>, s: Contents, t: Contents,
                                      unused: seq<Callback>)
    returns (order: seq<Key>)
    requires Drained(rest, script, s, t, unused) && KeepsAll(script) && |script| >= |rest|
    ensures Lists(order, rest.Keys) && t == s.(handles := s.handles + Looked(rest, order))
    decreases |rest|
  {
    if rest == map[] {
      order := [];
      assert s.handles + [] == s.handles;
    } else {
      var key, m :| key in rest && Disposed(rest[key], script, s, m) &&
        Drained(rest - {key}, Later(script), m, t, unused);
      OneKeyLess(rest, key);
      DisposeKeeps(rest[key], script, s, m);
      var later := DrainKeeps(rest - {key}, Later(script), m, t, unused);
      KeysWithout(rest, key);
      ListedFirst(rest.Keys, key, later);
      LookedFirst(rest, key, later);
      order := [key] + later;
      Joined(s.handles, [rest[key]], Looked(rest - {key}, later));
    }
  }

  /** When there is a callback for every entry and each keeps what it gets, the cells of the map become handles,
      in the order of the iteration, and nothing else changes. */
  lemma ClearKeeps(script: seq<Callback>, s: Contents, t: Contents) returns (order: seq<Key>)
    requires Cleared(script, s, t) && KeepsAll(script) && |script| >= |s.values|
    ensures Lists(order, s.values.Keys)
    ensures t == s.(values := map[], handles := s.handles + Looked(s.values, order))
  {
    if s.values == map[] {
      order := [];
      assert s.handles + [] == s.handles;
    } else {
      var m, unused :| Drained(s.values, script, s.(values := map[]), m, unused) &&
        if ScriptSize(unused) < ScriptSize(script) then Cleared(unused, m, t) else t == m;
      order := DrainKeeps(s.values, script, s.(values := map[]), m, unused);
    }
  }

  lemma ListedLater(order: seq<Key>, keys: set<Key>)
    requires Lists(order, keys) && order != []
    ensures order[0] in keys && Lists(order[1..], keys - {order[0]})
  {
    var key, later := order[0], order[1..];
    assert key in order;
    forall k
      ensures k in later <==> k in keys - {key}
    {
      assert k in order <==> k in keys;
      if k in later {
        var i :| 0 <= i < |later| && later[i] == k;
        assert order[i + 1] == k;
      }
      if k in order && k != key {
        var i :| 0 <= i < |order| && order[i] == k;
        assert later[i - 1] == k;
      }
    }
  }

  /** The kept cells are the cells of the map. */
  lemma {:induction false} LookedCells(m: map<Key, Cell>, order: seq<Key>)
    requires Lists(order, m.Keys)
    ensures SeqCells(Looked(m, order)) == MapCells(m)
    decreases |order|
  {
    if order == [] {
      assert forall k :: k in m.Keys <==> k in order;
      assert m.Keys == {};
    } else {
      var key, later := order[0], order[1..];
      assert order == [key] + later;
      ListedLater(order, m.Keys);
      KeysWithout(m, key);
      LookedFirst(m, key, later);
      LookedCells(m - {key}, later);
      MapCellsRemove(m, key);
      SeqCellsFirst(Looked(m, order));
      assert Looked(m, order)[1..] == Looked(m - {key}, later);
    }
  }

  // ---- Callbacks that leave handles and vector alone ----

  /** An operation that at most adds handles, and leaves the other ones and the vector alone. */
  predicate Quiet(op: Op) {
    match op
    case NewHandle(_) => true
    case SetLocal(_, _) => true
    case Remove(_) => true
    case ClearMap(script) => QuietScript(script)
    case _ => false
  }

  predicate QuietScript(script: seq<Callback>) {
    script == [] || (QuietCallback(script[0]) && QuietScript(script[1..]))
  }

  predicate QuietCallback(callback: Callback) {
    QuietActions(callback.actions)
  }

  predicate QuietActions(actions: seq<Action>) {
    actions == [] || (QuietAction(actions[0]) && QuietActions(actions[1..]))
  }

  predicate QuietAction(action: Action) {
    match action
    case Use(op) => Quiet(op)
    case _ => true
  }

  predicate AddedHandles(s: Contents, t: Contents) {
    t.vector == s.vector && s.handles <= t.handles
  }

  lemma AddedTransitive(s: Contents, t: Contents, u: Contents)
    requires AddedHandles(s, t) && AddedHandles(t, u)
    ensures AddedHandles(s, u)
  {
  }

  lemma {:induction false} QuietOp(op: Op, s: Contents, t: Contents)
    requires Quiet(op) && Stepped(op, s, t)
    ensures AddedHandles(s, t)
    decreases OpSize(op), 0
  {
    if op.ClearMap? {
      QuietClear(op.script, s, t);
    }
  }

  lemma {:induction false} QuietCalledBack(actions: seq<Action>, s: Contents, v: Cell, t: Contents, w: Cell)
    requires QuietActions(actions) && CalledBack(actions, s, v, t, w)
    ensures AddedHandles(s, t)
    decreases ActionsSize(actions), 0
  {
    if actions != [] {
      var m, x :| Acted(actions[0], s, v, m, x) && CalledBack(actions[1..], m, x, t, w);
      if actions[0].Use? {
        assert OpSize(actions[0].op) < ActionSize(actions[0]) < ActionsSize(actions);
        QuietOp(actions[0].op, s, m);
      }
      QuietCalledBack(actions[1..], m, x, t, w);
      AddedTransitive(s, m, t);
    }
  }

  lemma {:induction false} QuietDrain(rest: map<Key, Cell>, script: seq<Callback>, s: Contents, t: Contents,
                                      unused: seq<Callback>)
    requires QuietScript(script) && Drained(rest, script, s, t, unused)
    ensures AddedHandles(s, t) && QuietScript(unused)
    decreases ScriptSize(script), 2, |rest|
  {
    if rest != map[] {
      var key, m :| key in rest && Disposed(rest[key], script, s, m) &&
        Drained(rest - {key}, Later(script), m, t, unused);
      NextCallback(script);
      OneKeyLess(rest, key);
      if !Spent(script) {
        var w := DisposedByCallback(rest[key], script, s, m);
        assert QuietCallback(script[0]);
        QuietCalledBack(script[0].actions, s, rest[key], m, w);
      }
      QuietDrain(rest - {key}, Later(script), m, t, unused);
      AddedTransitive(s, m, t);
    }
  }

  /** With such callbacks a clear at most adds handles. */
  lemma {:induction false} QuietClear(script: seq<Callback>, s: Contents, t: Contents)
    requires QuietScript(script) && Cleared(script, s, t)
    ensures AddedHandles(s, t)
    decreases ScriptSize(script), 3
  {
    if s.values != map[] {
      var m, unused :| Drained(s.values, script, s.(values := map[]), m, unused) &&
        if ScriptSize(unused) < ScriptSize(script) then Cleared(unused, m, t) else t == m;
      QuietDrain(s.values, script, s.(values := map[]), m, unused);
      if ScriptSize(unused) < ScriptSize(script) {
        QuietClear(unused, m, t);
        AddedTransitive(s.(values := map[]), m, t);
      }
    }
  }
}
