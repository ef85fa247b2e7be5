/** The critical sections of Agents carry out the steps of AgentProtocol: what is proved of the transition
    system holds of the shared vector and queue. */
module AgentRuns {
  import opened Agents
  import opened AgentProtocol

  // The shared variables are in the state `s`.
  ghost predicate Shows(shared: Shared, s: State)
    reads shared
  {
    shared.workerThreads == s.slots && shared.messagesFromWorkers == s.reports
  }

  function WithShared(s: State, slots: seq<Slot>, reports: seq<Message>): State {
    s.(slots := slots, reports := reports)
  }

  /** A step of the main thread: the state after it is read off the shared variables and off what the
      critical section answered. */
  method PerformMain(shared: Shared, s: State, step: Step) returns (s': State)
    requires Inv(s) && Enabled(s, step) && Shows(shared, s)
    requires !step.Report? && !step.Leave? && !step.Finish? && !step.Check? && !step.Take? && !step.End?
    modifies shared
    ensures s' == Apply(s, step) && Shows(shared, s')
  {
    s' := s;
    match step {
      case Spawn(id) =>
        s' := s'.(workers := s'.workers[id := Worker(Scripting, 0, [])], main := Starting(id));
      case Register =>
        var id := s.main.id;
        shared.PushWorker(id);
        s' := s'.(workers := s'.workers[id := s'.workers[id].(since := |s'.posted|)], main := Idle);
      case Post(m) =>
        shared.PostMessage(m);
        s' := s'.(posted := s'.posted + [m], main := Broadcasting);
      case Poll =>
        var thereIsNoMessage := shared.ThereIsNoMessage();
        if thereIsNoMessage { s' := s'.(main := Idle); }
      case GetReport =>
        var found, message := shared.GetReport();
        if found { s' := s'.(returned := s'.returned + [message]); }
      case MainReport(m) =>
        shared.Report(m);
        s' := s'.(pushed := s'.pushed + [m]);
      case Close =>
        s' := s'.(main := Closing);
      case CheckEnded =>
        var everyThreadIsEnded := shared.EveryThreadIsEnded();
        if everyThreadIsEnded { s' := s'.(main := Joined); }
    }
    s' := WithShared(s', shared.workerThreads, shared.messagesFromWorkers);
  }

  /** A step of a worker. */
  method PerformWorker(shared: Shared, s: State, step: Step) returns (s': State)
    requires Inv(s) && Enabled(s, step) && Shows(shared, s)
    requires step.Report? || step.Leave? || step.Finish? || step.Check? || step.Take? || step.End?
    modifies shared
    ensures s' == Apply(s, step) && Shows(shared, s')
  {
    s' := s;
    match step {
      case Report(_, m) =>
        shared.Report(m);
        s' := s'.(pushed := s'.pushed + [m]);
      case Leave(id) =>
        shared.Leaving(id);
      case Finish(id) =>
        s' := MoveTo(s', id, AtCheck);
      case Check(id) =>
        var running := shared.CheckRunning(id);
        s' := MoveTo(s', id, if running then AtTake else Finalizing);
      case Take(id) =>
        var message := shared.TakeMessage(id);
        var w := s'.workers[id];
        s' := s'.(workers := s'.workers[id := Worker(AfterTaking(message), w.since, w.taken + Pending(message))]);
      case End(id) =>
        shared.MarkEnded(id);
        s' := MoveTo(s', id, Gone);
    }
    s' := WithShared(s', shared.workerThreads, shared.messagesFromWorkers);
  }

  /** Any run, carried out on shared variables. */
  method Play(steps: seq<Step>) returns (shared: Shared, s: State)
    requires Legal(INIT, steps)
    ensures fresh(shared) && s == Exec(INIT, steps) && Shows(shared, s)
  {
    s := INIT;
    shared := new Shared();
    assert steps[0..] == steps;
    for k := 0 to |steps|
      invariant fresh(shared) && Inv(s) && Shows(shared, s)
      invariant Legal(s, steps[k..]) && Exec(s, steps[k..]) == Exec(INIT, steps)
    {
      ghost var rest := steps[k..];
      assert rest[0] == steps[k] && rest[1..] == steps[k + 1..];
      StepKeepsInv(s, steps[k]);
      match steps[k] {
        case Report(_, _) => s := PerformWorker(shared, s, steps[k]);
        case Leave(_) => s := PerformWorker(shared, s, steps[k]);
        case Finish(_) => s := PerformWorker(shared, s, steps[k]);
        case Check(_) => s := PerformWorker(shared, s, steps[k]);
        case Take(_) => s := PerformWorker(shared, s, steps[k]);
        case End(_) => s := PerformWorker(shared, s, steps[k]);
        case _ => s := PerformMain(shared, s, steps[k]);
      }
    }
  }
}
