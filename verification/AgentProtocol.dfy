/** The agent protocol of sample/escargot-sample.cc as a transition system: one step per critical
    section or per local move, any number of workers, every interleaving. `posted`, `taken`, `pushed` and
    `returned` record what happened; no step reads them. */
module AgentProtocol {
  import opened Agents

  /** Where a worker is: in its script, at the `running` test, between the test and taking a message, in
      the callback, past its loop, or after marking itself ended. */
  datatype WorkerPc = Scripting | AtCheck | AtTake | Handling | Finalizing | Gone

  datatype Worker = Worker(pc: WorkerPc, since: nat, taken: seq<Message>)

  /** Where the main thread is. `Starting` lies between creating a thread and pushing its slot;
      `Broadcasting` is the wait inside `broadcast`; `Closing` is the wait at the end of `entry`. */
  datatype MainPc = Idle | Starting(id: ThreadId) | Broadcasting | Closing | Joined

  datatype State = State(
    slots: seq<Slot>,
    reports: seq<Message>,
    workers: map<ThreadId, Worker>,
    main: MainPc,
    posted: seq<Message>,
    pushed: seq<Message>,
    returned: seq<Message>)

  const INIT := State([], [], map[], Idle, [], [], [])

  datatype Step =
    | Spawn(id: ThreadId)
    | Register
    | Post(m: Message)
    | Poll
    | GetReport
    | MainReport(m: Message)
    | Close
    | CheckEnded
    | Report(id: ThreadId, m: Message)
    | Leave(id: ThreadId)
    | Finish(id: ThreadId)
    | Check(id: ThreadId)
    | Take(id: ThreadId)
    | End(id: ThreadId)

  predicate At(s: State, id: ThreadId, pcs: set<WorkerPc>) {
    id in s.workers && s.workers[id].pc in pcs
  }

  /** Only the main context has `start`, `broadcast` and `getReport`; `report` is also in the realms the
      main thread can create. A serialised payload is not empty. */
  predicate Enabled(s: State, step: Step) {
    match step
    case Spawn(id) => s.main == Idle && id !in s.workers
    case Register => s.main.Starting? && s.main.id in s.workers
    case Post(m) => s.main == Idle && m != ""
    case Poll => s.main == Broadcasting
    case GetReport => s.main == Idle
    case MainReport(_) => s.main == Idle
    case Close => s.main == Idle
    case CheckEnded => s.main == Closing
    case Report(id, _) => At(s, id, {Scripting, Handling})
    case Leave(id) => At(s, id, {Scripting, Handling})
    case Finish(id) => At(s, id, {Scripting, Handling})
    case Check(id) => At(s, id, {AtCheck})
    case Take(id) => At(s, id, {AtTake})
    case End(id) => At(s, id, {Finalizing})
  }

  function MoveTo(s: State, id: ThreadId, pc: WorkerPc): State
    requires id in s.workers
  {
    s.(workers := s.workers[id := s.workers[id].(pc := pc)])
  }

  function Apply(s: State, step: Step): State
    requires Enabled(s, step)
  {
    match step
    case Spawn(id) => s.(workers := s.workers[id := Worker(Scripting, 0, [])], main := Starting(id))
    case Register =>
      var id := s.main.id;
      s.(slots := s.slots + [Slot(id, "", true, false)],
         workers := s.workers[id := s.workers[id].(since := |s.posted|)],
         main := Idle)
    case Post(m) => s.(slots := AfterPost(s.slots, m), posted := s.posted + [m], main := Broadcasting)
    case Poll => if NoMessages(s.slots) then s.(main := Idle) else s
    case GetReport =>
      if s.reports == [] then s else s.(reports := s.reports[1..], returned := s.returned + [s.reports[0]])
    case MainReport(m) => s.(reports := s.reports + [m], pushed := s.pushed + [m])
    case Close => s.(main := Closing)
    case CheckEnded => if AllEnded(s.slots) then s.(main := Joined) else s
    case Report(_, m) => s.(reports := s.reports + [m], pushed := s.pushed + [m])
    case Leave(id) => s.(slots := AfterLeave(s.slots, id))
    case Finish(id) => MoveTo(s, id, AtCheck)
    case Check(id) => MoveTo(s, id, if OwnRunning(s.slots, id) then AtTake else Finalizing)
    case Take(id) =>
      var w := s.workers[id];
      var message := OwnMessage(s.slots, id);
      s.(slots := AfterTake(s.slots, id),
         workers := s.workers[id := Worker(AfterTaking(message), w.since, w.taken + Pending(message))])
    case End(id) => MoveTo(s.(slots := AfterEnd(s.slots, id)), id, Gone)
  }

  // Without a message the worker goes back to its test at once.
  function AfterTaking(message: Message): WorkerPc {
    if message == "" then AtCheck else Handling
  }

  // An empty string is no message.
  function Pending(message: Message): seq<Message> {
    if message == "" then [] else [message]
  }

  // ---- Runs ----

  predicate Legal(s: State, steps: seq<Step>)
    decreases |steps|
  {
    steps == [] || (Enabled(s, steps[0]) && Legal(Apply(s, steps[0]), steps[1..]))
  }

  function Exec(s: State, steps: seq<Step>): State
    requires Legal(s, steps)
    decreases |steps|
  {
    if steps == [] then s else Exec(Apply(s, steps[0]), steps[1..])
  }

  lemma {:induction false} ExecConcat(s: State, a: seq<Step>, b: seq<Step>)
    requires Legal(s, a) && Legal(Exec(s, a), b)
    ensures Legal(s, a + b) && Exec(s, a + b) == Exec(Exec(s, a), b)
    decreases |a|
  {
    if a == [] {
      assert a + b == b;
    } else {
      assert (a + b)[1..] == a[1..] + b;
      ExecConcat(Apply(s, a[0]), a[1..], b);
    }
  }

  // ---- The invariant ----

  /** What the worker of slot `i` has taken, with what is still in its slot, is what was posted since it
      was registered. */
  predicate History(s: State, i: nat)
    requires i < |s.slots|
  {
    && s.slots[i].id in s.workers
    && var w := s.workers[s.slots[i].id];
    && w.since <= |s.posted|
    && w.taken + Pending(s.slots[i].message) == s.posted[w.since..]
    && (s.main == Broadcasting ==> w.since < |s.posted|)
  }

  /** A worker between test and take is running, and only a worker that is gone has ended. */
  predicate Flags(s: State, i: nat)
    requires i < |s.slots| && s.slots[i].id in s.workers
  {
    && (s.workers[s.slots[i].id].pc == AtTake ==> s.slots[i].running)
    && (s.slots[i].ended ==> s.workers[s.slots[i].id].pc == Gone)
  }

  /** A worker without a slot has only just been created. */
  ghost predicate Unborn(s: State, id: ThreadId) {
    id in s.workers && !Registered(s.slots, id) ==>
      s.main == Starting(id) && s.workers[id].taken == [] && s.workers[id].pc != AtTake
  }

  ghost predicate Inv(s: State) {
    && DistinctIds(s.slots)
    && (forall i | 0 <= i < |s.slots| :: History(s, i) && Flags(s, i))
    && (forall id :: Unborn(s, id))
    && (s.main.Starting? ==> s.main.id in s.workers && !Registered(s.slots, s.main.id))
    && (s.main != Broadcasting ==> NoMessages(s.slots))
    && (s.main == Joined ==> AllEnded(s.slots))
    && s.returned + s.reports == s.pushed
  }

  lemma RegisterKeepsInv(s: State)
    requires Inv(s) && Enabled(s, Register)
    ensures Inv(Apply(s, Register))
  {
    var s' := Apply(s, Register);
    var id := s.main.id;
    assert Unborn(s, id);
    forall i | 0 <= i < |s'.slots|
      ensures History(s', i) && Flags(s', i)
    {
      if i < |s.slots| {
        assert History(s, i) && Flags(s, i) && s.slots[i].id != id;
      }
    }
    forall k
      ensures Unborn(s', k)
    {
      assert Unborn(s, k);
      assert Registered(s'.slots, k) <== Registered(s.slots, k) by {
        assert forall i | 0 <= i < |s.slots| :: s'.slots[i] == s.slots[i];
      }
      assert s'.slots[|s.slots|].id == id;
    }
  }

  // Changing slots in place keeps who is registered.
  lemma SameIds(before: seq<Slot>, after: seq<Slot>, id: ThreadId)
    requires |before| == |after| && forall i | 0 <= i < |before| :: after[i].id == before[i].id
    ensures Registered(before, id) <==> Registered(after, id)
  {
  }

  lemma SlotStepKeepsInv(s: State, step: Step)
    requires Inv(s) && Enabled(s, step) && (step.Post? || step.Leave? || step.End?)
    ensures Inv(Apply(s, step))
  {
    var s' := Apply(s, step);
    forall i | 0 <= i < |s'.slots|
      ensures History(s', i) && Flags(s', i)
    {
      assert History(s, i) && Flags(s, i);
      if step.Post? {
        var w := s.workers[s.slots[i].id];
        assert s'.posted[w.since..] == s.posted[w.since..] + [step.m];
      }
    }
    forall id
      ensures Unborn(s', id)
    {
      assert Unborn(s, id);
      SameIds(s.slots, s'.slots, id);
    }
  }

  lemma TakeKeepsInv(s: State, id: ThreadId)
    requires Inv(s) && Enabled(s, Take(id))
    ensures Inv(Apply(s, Take(id)))
  {
    var s' := Apply(s, Take(id));
    forall i | 0 <= i < |s'.slots|
      ensures History(s', i) && Flags(s', i)
    {
      assert History(s, i) && Flags(s, i);
      if s.slots[i].id == id {
        OwnMessageAt(s.slots, i);
      }
    }
    forall k
      ensures Unborn(s', k)
    {
      assert Unborn(s, k);
      SameIds(s.slots, s'.slots, k);
    }
  }

  lemma RegisteredAreWorkers(s: State)
    requires Inv(s)
    ensures forall id :: Registered(s.slots, id) ==> id in s.workers
  {
    forall i | 0 <= i < |s.slots|
      ensures s.slots[i].id in s.workers
    {
      assert History(s, i);
    }
  }

  // Steps that leave the slots alone.
  lemma LocalStepKeepsInv(s: State, step: Step)
    requires Inv(s) && Enabled(s, step)
    requires !step.Register? && !step.Post? && !step.Leave? && !step.End? && !step.Take?
    ensures Inv(Apply(s, step))
  {
    var s' := Apply(s, step);
    forall i | 0 <= i < |s'.slots|
      ensures History(s', i) && Flags(s', i)
    {
      assert History(s, i) && Flags(s, i);
    }
    forall id
      ensures Unborn(s', id)
    {
      assert Unborn(s, id);
    }
    RegisteredAreWorkers(s);
  }

  lemma StepKeepsInv(s: State, step: Step)
    requires Inv(s) && Enabled(s, step)
    ensures Inv(Apply(s, step))
  {
    match step
    case Register => RegisterKeepsInv(s);
    case Take(id) => TakeKeepsInv(s, id);
    case Post(_) => SlotStepKeepsInv(s, step);
    case Leave(_) => SlotStepKeepsInv(s, step);
    case End(_) => SlotStepKeepsInv(s, step);
    case _ => LocalStepKeepsInv(s, step);
  }

  lemma {:induction false} RunKeepsInv(s: State, steps: seq<Step>)
    requires Inv(s) && Legal(s, steps)
    ensures Inv(Exec(s, steps))
    decreases |steps|
  {
    if steps != [] {
      StepKeepsInv(s, steps[0]);
      RunKeepsInv(Apply(s, steps[0]), steps[1..]);
    }
  }

  // ---- What holds in every run ----

  /** The messages a worker has taken are exactly the broadcasts posted since it was registered, in
      order, each once, but for at most the last, which is then still in its slot. */
  lemma TakenAreTheBroadcasts(steps: seq<Step>, i: nat)
    requires Legal(INIT, steps) && i < |Exec(INIT, steps).slots|
    ensures var s := Exec(INIT, steps);
            var id := s.slots[i].id;
            && id in s.workers
            && var w := s.workers[id];
            && w.since <= |s.posted|
            && w.taken + Pending(s.slots[i].message) == s.posted[w.since..]
  {
    RunKeepsInv(INIT, steps);
    assert History(Exec(INIT, steps), i);
  }

  /** A broadcast never overwrites a message: whenever one can be posted, every slot is empty. */
  lemma BroadcastOverwritesNothing(steps: seq<Step>, m: Message)
    requires Legal(INIT, steps) && Enabled(Exec(INIT, steps), Post(m))
    ensures NoMessages(Exec(INIT, steps).slots)
  {
    RunKeepsInv(INIT, steps);
  }

  lemma EmptiedMeansTaken(s: State, i: nat)
    requires Inv(s) && s.main == Broadcasting && i < |s.slots| && s.slots[i].message == ""
    ensures var id := s.slots[i].id;
            && id in s.workers && s.posted != []
            && var taken := s.workers[id].taken;
            taken != [] && taken[|taken| - 1] == s.posted[|s.posted| - 1]
  {
    assert History(s, i);
    var w := s.workers[s.slots[i].id];
    assert w.taken == s.posted[w.since..];
  }

  /** When `broadcast` returns, every registered worker has taken that payload itself, as its latest. */
  lemma BroadcastReturnsWhenTaken(steps: seq<Step>, i: nat)
    requires Legal(INIT, steps)
    requires var s := Exec(INIT, steps);
             s.main == Broadcasting && Apply(s, Poll).main == Idle && i < |s.slots|
    ensures var s := Exec(INIT, steps);
            var id := s.slots[i].id;
            && id in s.workers && s.posted != []
            && var taken := s.workers[id].taken;
            taken != [] && taken[|taken| - 1] == s.posted[|s.posted| - 1]
  {
    RunKeepsInv(INIT, steps);
    EmptiedMeansTaken(Exec(INIT, steps), i);
  }

  /** Reports are first-in first-out and none is lost or made up. */
  lemma ReportsAreFifo(steps: seq<Step>)
    requires Legal(INIT, steps)
    ensures var s := Exec(INIT, steps); s.returned + s.reports == s.pushed
  {
    RunKeepsInv(INIT, steps);
  }

  /** The main thread joins only when every worker ever created is past its message loop, and each of them
      has a slot to be joined by. */
  lemma JoinOnlyWhenAllAreGone(steps: seq<Step>, id: ThreadId)
    requires Legal(INIT, steps) && Exec(INIT, steps).main == Joined && id in Exec(INIT, steps).workers
    ensures var s := Exec(INIT, steps);
            s.workers[id].pc == Gone && exists i | 0 <= i < |s.slots| :: s.slots[i].id == id && s.slots[i].ended
  {
    RunKeepsInv(INIT, steps);
    var s := Exec(INIT, steps);
    assert Unborn(s, id);
    var i :| 0 <= i < |s.slots| && s.slots[i].id == id;
    assert History(s, i) && Flags(s, i);
  }

  /** `running` and `ended` change at most once and slots keep their place; a worker past its loop never
      re-enters it. */
  lemma {:induction false} FlagsChangeOnce(s: State, steps: seq<Step>, i: nat)
    requires Inv(s) && Legal(s, steps) && i < |s.slots|
    ensures var s' := Exec(s, steps);
            && i < |s'.slots| && s'.slots[i].id == s.slots[i].id
            && (!s.slots[i].running ==> !s'.slots[i].running)
            && (s.slots[i].ended ==> s'.slots[i].ended)
    decreases |steps|
  {
    if steps != [] {
      StepKeepsInv(s, steps[0]);
      FlagsChangeOnce(Apply(s, steps[0]), steps[1..], i);
    }
  }

  lemma {:induction false} PastTheLoopForGood(s: State, steps: seq<Step>, id: ThreadId)
    requires Legal(s, steps) && At(s, id, {Finalizing, Gone})
    ensures var s' := Exec(s, steps);
            At(s', id, {Finalizing, Gone}) && s'.workers[id].taken == s.workers[id].taken
    decreases |steps|
  {
    if steps != [] {
      PastTheLoopForGood(Apply(s, steps[0]), steps[1..], id);
    }
  }

  // ---- When the main thread can join ----

  /** A worker marks its own slot as ended and nothing else. */
  lemma EndMarksTheSlot(s: State, id: ThreadId, i: nat)
    requires Inv(s) && Enabled(s, End(id)) && i < |s.slots|
    ensures var s' := Apply(s, End(id));
            && |s'.slots| == |s.slots| && s'.workers[id].pc == Gone
            && var was := s.slots[i];
            s'.slots[i] == if was.id == id then Slot(id, was.message, was.running, true) else was
  {
  }

  /** Some step of the run ended the worker while it had a slot. */
  ghost predicate EndedRegistered(steps: seq<Step>, id: ThreadId) {
    exists k | 0 <= k < |steps| :: EndedAt(steps, id, k)
  }

  predicate EndedAt(steps: seq<Step>, id: ThreadId, k: nat) {
    && k < |steps| && steps[k] == End(id)
    && Legal(INIT, steps[..k]) && Registered(Exec(INIT, steps[..k]).slots, id)
  }

  lemma {:induction false} RunSplit(s: State, steps: seq<Step>, k: nat)
    requires Legal(s, steps) && k <= |steps|
    ensures Legal(s, steps[..k]) && Legal(Exec(s, steps[..k]), steps[k..])
    ensures Exec(s, steps) == Exec(Exec(s, steps[..k]), steps[k..])
    decreases k
  {
    if k == 0 {
      assert steps[k..] == steps;
    } else {
      RunSplit(Apply(s, steps[0]), steps[1..], k - 1);
      assert steps[..k][1..] == steps[1..][..k - 1] && steps[1..][k - 1..] == steps[k..];
    }
  }

  /** From then on its slot is marked, in every later state. */
  lemma EndedForGood(steps: seq<Step>, id: ThreadId, k: nat)
    requires Legal(INIT, steps) && EndedAt(steps, id, k)
    ensures exists i | 0 <= i < |Exec(INIT, steps).slots| ::
              Exec(INIT, steps).slots[i].id == id && Exec(INIT, steps).slots[i].ended
  {
    RunSplit(INIT, steps, k);
    var s := Exec(INIT, steps[..k]);
    RunKeepsInv(INIT, steps[..k]);
    var i :| 0 <= i < |s.slots| && s.slots[i].id == id;
    assert steps[k..][0] == End(id);
    EndMarksTheSlot(s, id, i);
    StepKeepsInv(s, End(id));
    FlagsChangeOnce(Apply(s, End(id)), steps[k..][1..], i);
  }

  lemma OnlyEndMarks(s: State, step: Step, i: nat)
    requires Enabled(s, step) && i < |Apply(s, step).slots| && Apply(s, step).slots[i].ended
    ensures i < |s.slots| && Apply(s, step).slots[i].id == s.slots[i].id
    ensures s.slots[i].ended || step == End(s.slots[i].id)
  {
  }

  /** And a slot is marked only by such a step. */
  lemma {:induction false} MarkedByEnd(steps: seq<Step>, i: nat)
    requires Legal(INIT, steps) && i < |Exec(INIT, steps).slots| && Exec(INIT, steps).slots[i].ended
    ensures EndedRegistered(steps, Exec(INIT, steps).slots[i].id)
    decreases |steps|
  {
    if steps != [] {
      var k: nat := |steps| - 1;
      var init := steps[..k];
      RunSplit(INIT, steps, k);
      var s := Exec(INIT, init);
      assert steps[k..] == [steps[k]] && steps[k..][1..] == [];
      assert Exec(INIT, steps) == Apply(s, steps[k]);
      OnlyEndMarks(s, steps[k], i);
      if s.slots[i].ended {
        MarkedByEnd(init, i);
        var j :| 0 <= j < |init| && EndedAt(init, s.slots[i].id, j);
        assert init[..j] == steps[..j];
        assert EndedAt(steps, s.slots[i].id, j);
      } else {
        assert EndedAt(steps, s.slots[i].id, k);
      }
    }
  }

  lemma SameSlot(slots: seq<Slot>, i: nat, j: nat)
    requires DistinctIds(slots) && i < |slots| && j < |slots| && slots[i].id == slots[j].id
    ensures i == j
  {
  }

  lemma SlotOfEnded(steps: seq<Step>, i: nat)
    requires Legal(INIT, steps) && i < |Exec(INIT, steps).slots| && EndedRegistered(steps, Exec(INIT, steps).slots[i].id)
    ensures Exec(INIT, steps).slots[i].ended
  {
    var s := Exec(INIT, steps);
    var k :| 0 <= k < |steps| && EndedAt(steps, s.slots[i].id, k);
    EndedForGood(steps, s.slots[i].id, k);
    var j :| 0 <= j < |s.slots| && s.slots[j].id == s.slots[i].id && s.slots[j].ended;
    RunKeepsInv(INIT, steps);
    SameSlot(s.slots, i, j);
  }

  lemma WorkerHasEnded(steps: seq<Step>, id: ThreadId)
    requires Legal(INIT, steps) && Exec(INIT, steps).main == Closing && id in Exec(INIT, steps).workers
    requires AllEnded(Exec(INIT, steps).slots)
    ensures EndedRegistered(steps, id)
  {
    RunKeepsInv(INIT, steps);
    var s := Exec(INIT, steps);
    assert Unborn(s, id);
    var i :| 0 <= i < |s.slots| && s.slots[i].id == id;
    MarkedByEnd(steps, i);
  }

  /** The wait at the end of `entry` is over exactly when every worker ever created has ended while it had a
      slot: one that ended before it was registered makes the main thread wait for ever. */
  lemma ClosingJoinsIff(steps: seq<Step>)
    requires Legal(INIT, steps) && Exec(INIT, steps).main == Closing
    ensures var s := Exec(INIT, steps);
            Apply(s, CheckEnded).main == Joined <==> forall id | id in s.workers :: EndedRegistered(steps, id)
  {
    var s := Exec(INIT, steps);
    if AllEnded(s.slots) {
      forall id | id in s.workers
        ensures EndedRegistered(steps, id)
      {
        WorkerHasEnded(steps, id);
      }
    } else {
      var i :| 0 <= i < |s.slots| && !s.slots[i].ended;
      RunKeepsInv(INIT, steps);
      assert History(s, i);
      if EndedRegistered(steps, s.slots[i].id) {
        SlotOfEnded(steps, i);
      }
    }
  }

  // ---- When a broadcast can return ----

  /** The worker of slot `i` still looks for messages. */
  predicate WillLook(s: State, i: nat)
    requires i < |s.slots| && s.slots[i].id in s.workers
  {
    s.slots[i].running && s.workers[s.slots[i].id].pc !in {Finalizing, Gone}
  }

  /** A message nobody will take. */
  predicate Stuck(s: State, i: nat) {
    && s.main == Broadcasting
    && i < |s.slots| && s.slots[i].id in s.workers
    && s.slots[i].message != "" && !WillLook(s, i)
  }

  lemma StepKeepsStuck(s: State, step: Step, i: nat)
    requires Inv(s) && Enabled(s, step) && Stuck(s, i)
    ensures Stuck(Apply(s, step), i)
  {
    assert Flags(s, i);
  }

  lemma {:induction false} StuckForever(s: State, steps: seq<Step>, i: nat)
    requires Inv(s) && Legal(s, steps) && Stuck(s, i)
    ensures Stuck(Exec(s, steps), i)
    decreases |steps|
  {
    if steps != [] {
      StepKeepsInv(s, steps[0]);
      StepKeepsStuck(s, steps[0], i);
      StuckForever(Apply(s, steps[0]), steps[1..], i);
    }
  }

  /** Slot `i` is emptied and nothing else a waiting broadcast depends on changes. */
  ghost predicate Drained(s: State, s': State, i: nat)
    requires i < |s.slots|
  {
    && s'.main == s.main
    && s'.slots == s.slots[i := s.slots[i].(message := "")]
    && forall id | id in s.workers && id != s.slots[i].id :: id in s'.workers && s'.workers[id] == s.workers[id]
  }

  // The moves by which a worker that still looks comes to empty its slot.
  function Approach(pc: WorkerPc, id: ThreadId): seq<Step> {
    match pc
    case AtTake => [Take(id)]
    case AtCheck => [Check(id), Take(id)]
    case _ => [Finish(id), Check(id), Take(id)]
  }

  lemma {:induction false} WorkerDrains(s: State, i: nat, steps: seq<Step>)
    requires Inv(s) && i < |s.slots| && s.slots[i].id in s.workers && WillLook(s, i)
    requires steps == Approach(s.workers[s.slots[i].id].pc, s.slots[i].id)
    ensures Legal(s, steps) && Drained(s, Exec(s, steps), i)
    decreases |steps|
  {
    var id := s.slots[i].id;
    var next := Apply(s, steps[0]);
    StepKeepsInv(s, steps[0]);
    if s.workers[id].pc == AtTake {
      assert next.slots == s.slots[i := s.slots[i].(message := "")];
      assert Exec(next, steps[1..]) == next;
    } else {
      if s.workers[id].pc == AtCheck {
        assert OwnRunning(s.slots, id);
      }
      assert steps[1..] == Approach(next.workers[id].pc, id);
      WorkerDrains(next, i, steps[1..]);
    }
  }

  predicate SomeoneStuck(s: State) {
    exists i: nat | i < |s.slots| :: Stuck(s, i)
  }

  /** With nobody stuck, letting the workers run one after the other ends the wait. */
  lemma {:induction false} CompletingRun(s: State, k: nat) returns (steps: seq<Step>)
    requires Inv(s) && s.main == Broadcasting && !SomeoneStuck(s)
    requires k <= |s.slots| && forall i | 0 <= i < k :: s.slots[i].message == ""
    ensures Legal(s, steps) && Exec(s, steps).main == Idle
    decreases |s.slots| - k
  {
    if k == |s.slots| {
      steps := [Poll];
      assert Exec(Apply(s, Poll), steps[1..]) == Apply(s, Poll);
    } else if s.slots[k].message == "" {
      steps := CompletingRun(s, k + 1);
    } else {
      assert History(s, k) && !Stuck(s, k);
      var id := s.slots[k].id;
      var first := Approach(s.workers[id].pc, id);
      WorkerDrains(s, k, first);
      var s' := Exec(s, first);
      RunKeepsInv(s, first);
      forall i: nat | i < |s'.slots|
        ensures !Stuck(s', i)
      {
        assert History(s, i) && !Stuck(s, i);
        if i != k {
          assert s.slots[i].id != id;
        }
      }
      var rest := CompletingRun(s', k + 1);
      ExecConcat(s, first, rest);
      steps := first + rest;
    }
  }

  ghost predicate CanReturn(s: State) {
    exists steps :: Legal(s, steps) && Exec(s, steps).main == Idle
  }

  /** While a broadcast waits, it can return exactly when no message is stuck. */
  lemma WaitingCanReturnIff(s: State)
    requires Inv(s) && s.main == Broadcasting
    ensures CanReturn(s) <==> !SomeoneStuck(s)
  {
    if SomeoneStuck(s) {
      var i: nat :| i < |s.slots| && Stuck(s, i);
      forall run | Legal(s, run)
        ensures Exec(s, run).main == Broadcasting
      {
        StuckForever(s, run, i);
      }
    } else {
      var run := CompletingRun(s, 0);
    }
  }

  /** The same for the states a run reaches. */
  lemma ReachableCanReturnIff(steps: seq<Step>)
    requires Legal(INIT, steps) && Exec(INIT, steps).main == Broadcasting
    ensures CanReturn(Exec(INIT, steps)) <==> !SomeoneStuck(Exec(INIT, steps))
  {
    RunKeepsInv(INIT, steps);
    WaitingCanReturnIff(Exec(INIT, steps));
  }

  /** `broadcast` can return exactly when, at the moment of posting, every registered worker still looks
      for messages: one worker that is leaving or has left makes it wait for ever. */
  lemma BroadcastCanReturnIff(steps: seq<Step>, m: Message)
    requires Legal(INIT, steps) && Enabled(Exec(INIT, steps), Post(m))
    ensures var s := Exec(INIT, steps);
            && (forall i | 0 <= i < |s.slots| :: s.slots[i].id in s.workers)
            && (CanReturn(Apply(s, Post(m))) <==> forall i | 0 <= i < |s.slots| :: WillLook(s, i))
  {
    RunKeepsInv(INIT, steps);
    var s := Exec(INIT, steps);
    var s' := Apply(s, Post(m));
    StepKeepsInv(s, Post(m));
    forall i | 0 <= i < |s.slots|
      ensures s.slots[i].id in s.workers && (Stuck(s', i) <==> !WillLook(s, i))
    {
      assert History(s, i);
    }
    WaitingCanReturnIff(s');
    if i :| 0 <= i < |s.slots| && !WillLook(s, i) {
      assert Stuck(s', i);
    }
  }

  // ---- When a broadcast cannot get stuck ----

  /** The worker of slot `i` takes the next message before anything else. */
  predicate WillTake(s: State, i: nat)
    requires i < |s.slots| && s.slots[i].id in s.workers
  {
    s.slots[i].running && s.workers[s.slots[i].id].pc in {AtCheck, AtTake}
  }

  predicate TakenCareOf(s: State, i: nat)
    requires i < |s.slots|
  {
    s.slots[i].message == "" || (s.slots[i].id in s.workers && WillTake(s, i))
  }

  /** Every message still in a slot will be taken. */
  predicate AllTakenCareOf(s: State) {
    forall i | 0 <= i < |s.slots| :: TakenCareOf(s, i)
  }

  lemma {:induction false} PostedGrows(s: State, steps: seq<Step>)
    requires Legal(s, steps)
    ensures |s.posted| <= |Exec(s, steps).posted|
    decreases |steps|
  {
    if steps != [] {
      PostedGrows(Apply(s, steps[0]), steps[1..]);
    }
  }

  lemma StepKeepsCare(s: State, step: Step)
    requires Inv(s) && Enabled(s, step) && !step.Post? && AllTakenCareOf(s)
    ensures AllTakenCareOf(Apply(s, step))
  {
    var s' := Apply(s, step);
    forall i | 0 <= i < |s'.slots|
      ensures TakenCareOf(s', i)
    {
      if i < |s.slots| {
        assert History(s, i) && TakenCareOf(s, i);
        SlotKeepsCare(s, step, i);
      }
    }
  }

  lemma SlotKeepsCare(s: State, step: Step, i: nat)
    requires Inv(s) && Enabled(s, step) && !step.Post? && i < |s.slots|
    requires s.slots[i].id in s.workers && TakenCareOf(s, i)
    ensures i < |Apply(s, step).slots| && TakenCareOf(Apply(s, step), i)
  {
    if step.Check? && s.slots[i].id == step.id && s.slots[i].message != "" {
      assert OwnRunning(s.slots, step.id);
    }
  }

  /** As long as nothing further is posted, what is taken care of stays so. */
  lemma {:induction false} RunKeepsCare(s: State, steps: seq<Step>)
    requires Inv(s) && Legal(s, steps) && AllTakenCareOf(s) && Exec(s, steps).posted == s.posted
    ensures AllTakenCareOf(Exec(s, steps))
    decreases |steps|
  {
    if steps != [] {
      var next := Apply(s, steps[0]);
      PostedGrows(next, steps[1..]);
      StepKeepsInv(s, steps[0]);
      StepKeepsCare(s, steps[0]);
      RunKeepsCare(next, steps[1..]);
    }
  }

  lemma CareIsNotStuck(s: State)
    requires AllTakenCareOf(s)
    ensures !SomeoneStuck(s)
  {
    forall i: nat | i < |s.slots|
      ensures !Stuck(s, i)
    {
      assert TakenCareOf(s, i);
    }
  }

  // The moves by which a worker in its script or callback leaves without looking again.
  lemma LeavingGetsStuck(s: State, i: nat) returns (run: seq<Step>)
    requires Inv(s) && s.main == Broadcasting && i < |s.slots| && s.slots[i].message != ""
    requires s.slots[i].id in s.workers && s.workers[s.slots[i].id].pc in {Scripting, Handling}
    ensures Legal(s, run) && Stuck(Exec(s, run), i) && Exec(s, run).posted == s.posted
  {
    var id := s.slots[i].id;
    run := [Leave(id)];
    assert run[1..] == [];
    assert Exec(s, run) == Exec(Apply(s, Leave(id)), []);
  }

  /** `s` still waits for the broadcast that `s0` waits for. */
  predicate StillWaiting(s0: State, s: State) {
    s.main == Broadcasting && s.posted == s0.posted
  }

  /** However the threads go on, as long as the broadcast waits it can still return. */
  ghost predicate NeverStuck(s: State) {
    forall run | Legal(s, run) && StillWaiting(s, Exec(s, run)) :: CanReturn(Exec(s, run))
  }

  lemma CaredForIsNeverStuck(s: State)
    requires Inv(s) && s.main == Broadcasting && AllTakenCareOf(s)
    ensures NeverStuck(s)
  {
    forall run | Legal(s, run) && StillWaiting(s, Exec(s, run))
      ensures CanReturn(Exec(s, run))
    {
      RunKeepsInv(s, run);
      RunKeepsCare(s, run);
      CareIsNotStuck(Exec(s, run));
      WaitingCanReturnIff(Exec(s, run));
    }
  }

  lemma NotCaredForGetsStuck(s: State, i: nat)
    requires Inv(s) && s.main == Broadcasting && i < |s.slots| && !TakenCareOf(s, i)
    ensures !NeverStuck(s)
  {
    assert History(s, i);
    var run: seq<Step> := [];
    if WillLook(s, i) {
      run := LeavingGetsStuck(s, i);
    }
    assert Stuck(Exec(s, run), i) && StillWaiting(s, Exec(s, run));
    RunKeepsInv(s, run);
    WaitingCanReturnIff(Exec(s, run));
  }

  lemma NeverStuckIff(s: State)
    requires Inv(s) && s.main == Broadcasting
    ensures NeverStuck(s) <==> AllTakenCareOf(s)
  {
    if AllTakenCareOf(s) {
      CaredForIsNeverStuck(s);
    } else {
      var i :| 0 <= i < |s.slots| && !TakenCareOf(s, i);
      NotCaredForGetsStuck(s, i);
    }
  }

  /** A broadcast never gets stuck, whatever the schedule and the scripts, exactly when at the moment of
      posting every registered worker is running and about to test or to take. */
  lemma BroadcastNeverStuckIff(steps: seq<Step>, m: Message)
    requires Legal(INIT, steps) && Enabled(Exec(INIT, steps), Post(m))
    ensures var s := Exec(INIT, steps);
            && (forall i | 0 <= i < |s.slots| :: s.slots[i].id in s.workers)
            && (NeverStuck(Apply(s, Post(m))) <==> forall i | 0 <= i < |s.slots| :: WillTake(s, i))
  {
    RunKeepsInv(INIT, steps);
    var s := Exec(INIT, steps);
    PostTakenCareOf(s, m);
    StepKeepsInv(s, Post(m));
    NeverStuckIff(Apply(s, Post(m)));
  }

  lemma PostTakenCareOf(s: State, m: Message)
    requires Inv(s) && Enabled(s, Post(m))
    ensures forall i | 0 <= i < |s.slots| :: s.slots[i].id in s.workers
    ensures AllTakenCareOf(Apply(s, Post(m))) <==> forall i | 0 <= i < |s.slots| :: WillTake(s, i)
  {
    var s' := Apply(s, Post(m));
    forall i | 0 <= i < |s.slots|
      ensures s.slots[i].id in s.workers && (TakenCareOf(s', i) <==> WillTake(s, i))
    {
      assert History(s, i);
    }
  }

  /** A worker that still looks when the broadcast posts may leave before it looks. */
  lemma ALeavingWorkerStrandsTheBroadcast()
    ensures var s := Exec(INIT, [Spawn(1), Register]);
            && Legal(INIT, [Spawn(1), Register]) && |s.slots| == 1 && 1 in s.workers && s.slots[0].id == 1
            && CanReturn(Apply(s, Post("m"))) && !NeverStuck(Apply(s, Post("m")))
  {
    var steps := [Spawn(1), Register];
    var s1 := Apply(INIT, Spawn(1));
    assert steps[1..] == [Register] && [Register][1..] == [];
    assert Legal(s1, [Register]) && Exec(s1, [Register]) == Apply(s1, Register);
    var s := Exec(INIT, steps);
    assert s.slots == [Slot(1, "", true, false)] && WillLook(s, 0) && !WillTake(s, 0);
    BroadcastCanReturnIff(steps, "m");
    BroadcastNeverStuckIff(steps, "m");
  }
}
