/** The test agents of sample/escargot-sample.cc: the main thread and its workers share a vector of
    message slots and a queue of reports under one mutex. This is the shared state with one method per
    critical section; what they guarantee over whole runs is in AgentProtocol. */
module Agents {
  type ThreadId = nat
  type Message = string

  /** One element of `workerThreads`: the thread with its `WorkerThreadData`. */
  datatype Slot = Slot(id: ThreadId, message: Message, running: bool, ended: bool)

  // Thread ids are not reused before the thread is joined.
  predicate DistinctIds(slots: seq<Slot>) {
    forall i, j | 0 <= i < j < |slots| :: slots[i].id != slots[j].id
  }

  predicate Registered(slots: seq<Slot>, id: ThreadId) {
    exists i | 0 <= i < |slots| :: slots[i].id == id
  }

  predicate NoMessages(slots: seq<Slot>) {
    forall i | 0 <= i < |slots| :: slots[i].message == ""
  }

  predicate AllEnded(slots: seq<Slot>) {
    forall i | 0 <= i < |slots| :: slots[i].ended
  }

  /** What a worker sees of its own slot; a worker that is not registered yet sees no message and
      `running` false. */
  function OwnMessage(slots: seq<Slot>, id: ThreadId): Message {
    if slots == [] then "" else if slots[0].id == id then slots[0].message else OwnMessage(slots[1..], id)
  }

  predicate OwnRunning(slots: seq<Slot>, id: ThreadId) {
    exists i | 0 <= i < |slots| :: slots[i].id == id && slots[i].running
  }

  function AfterPost(slots: seq<Slot>, message: Message): seq<Slot> {
    seq(|slots|, i requires 0 <= i < |slots| => slots[i].(message := message))
  }

  function AfterTake(slots: seq<Slot>, id: ThreadId): seq<Slot> {
    seq(|slots|, i requires 0 <= i < |slots| => if slots[i].id == id then slots[i].(message := "") else slots[i])
  }

  function AfterLeave(slots: seq<Slot>, id: ThreadId): seq<Slot> {
    seq(|slots|, i requires 0 <= i < |slots| => if slots[i].id == id then slots[i].(running := false) else slots[i])
  }

  function AfterEnd(slots: seq<Slot>, id: ThreadId): seq<Slot> {
    seq(|slots|, i requires 0 <= i < |slots| => if slots[i].id == id then slots[i].(ended := true) else slots[i])
  }

  lemma {:induction false} OwnMessageAt(slots: seq<Slot>, i: nat)
    requires DistinctIds(slots) && i < |slots|
    ensures OwnMessage(slots, slots[i].id) == slots[i].message
  {
    if i > 0 {
      OwnMessageAt(slots[1..], i - 1);
    }
  }

  lemma {:induction false} OwnMessageUnregistered(slots: seq<Slot>, id: ThreadId)
    requires !Registered(slots, id)
    ensures OwnMessage(slots, id) == ""
  {
    if slots != [] {
      assert slots[0].id != id;
      assert !Registered(slots[1..], id) by {
        assert forall i | 0 <= i < |slots[1..]| :: slots[1..][i] == slots[i + 1];
      }
      OwnMessageUnregistered(slots[1..], id);
    }
  }

  class Shared {
    var workerThreads: seq<Slot>
    var messagesFromWorkers: seq<Message>

    predicate Valid()
      reads this
    {
      DistinctIds(workerThreads)
    }

    constructor ()
      ensures Valid() && workerThreads == [] && messagesFromWorkers == []
    {
      workerThreads, messagesFromWorkers := [], [];
    }

    /** The end of `builtin262AgentStart`. */
    method PushWorker(id: ThreadId)
      requires Valid() && !Registered(workerThreads, id)
      modifies this`workerThreads
      ensures Valid() && workerThreads == old(workerThreads) + [Slot(id, "", true, false)]
    {
      workerThreads := workerThreads + [Slot(id, "", true, false)];
    }

    /** The worker's test at the head of its loop. */
    method CheckRunning(id: ThreadId) returns (running: bool)
      requires Valid()
      ensures running <==> OwnRunning(workerThreads, id)
    {
      running := false;
      var i := 0;
      while i < |workerThreads|
        invariant 0 <= i <= |workerThreads| && !running
        invariant forall k | 0 <= k < i :: workerThreads[k].id != id
      {
        if workerThreads[i].id == id {
          running := workerThreads[i].running;
          break;
        }
        i := i + 1;
      }
    }

    /** The worker moves the message out of its slot, which leaves the slot's string empty. */
    method TakeMessage(id: ThreadId) returns (message: Message)
      requires Valid()
      modifies this`workerThreads
      ensures Valid() && message == OwnMessage(old(workerThreads), id)
      ensures workerThreads == AfterTake(old(workerThreads), id)
      ensures |workerThreads| == |old(workerThreads)|
      ensures forall k | 0 <= k < |workerThreads| ::
          var was := old(workerThreads)[k];
          workerThreads[k] == if was.id == id then Slot(was.id, "", was.running, was.ended) else was
    {
      message := "";
      var i := 0;
      while i < |workerThreads|
        invariant 0 <= i <= |workerThreads| && message == "" && workerThreads == old(workerThreads)
        invariant forall k | 0 <= k < i :: workerThreads[k].id != id
      {
        if workerThreads[i].id == id {
          OwnMessageAt(workerThreads, i);
          message := workerThreads[i].message;
          workerThreads := workerThreads[i := workerThreads[i].(message := "")];
          assert workerThreads == AfterTake(old(workerThreads), id);
          return;
        }
        i := i + 1;
      }
      OwnMessageUnregistered(workerThreads, id);
      assert workerThreads == AfterTake(workerThreads, id);
    }

    /** `builtin262AgentLeaving`. */
    method Leaving(id: ThreadId)
      requires Valid()
      modifies this`workerThreads
      ensures Valid() && workerThreads == AfterLeave(old(workerThreads), id)
      ensures |workerThreads| == |old(workerThreads)|
      ensures forall k | 0 <= k < |workerThreads| ::
          var was := old(workerThreads)[k];
          workerThreads[k] == if was.id == id then Slot(was.id, was.message, false, was.ended) else was
    {
      var i := 0;
      while i < |workerThreads|
        invariant 0 <= i <= |workerThreads| && workerThreads == old(workerThreads)
        invariant forall k | 0 <= k < i :: workerThreads[k].id != id
      {
        if workerThreads[i].id == id {
          workerThreads := workerThreads[i := workerThreads[i].(running := false)];
          break;
        }
        i := i + 1;
      }
      assert workerThreads == AfterLeave(old(workerThreads), id);
    }

    /** The last thing a worker does; this loop does not stop at the first match. */
    method MarkEnded(id: ThreadId)
      requires Valid()
      modifies this`workerThreads
      ensures Valid() && workerThreads == AfterEnd(old(workerThreads), id)
      ensures |workerThreads| == |old(workerThreads)|
      ensures forall k | 0 <= k < |workerThreads| ::
          var was := old(workerThreads)[k];
          workerThreads[k] == if was.id == id then Slot(was.id, was.message, was.running, true) else was
    {
      var i := 0;
      while i < |workerThreads|
        invariant 0 <= i <= |workerThreads| == |old(workerThreads)|
        invariant forall k | 0 <= k < |workerThreads| ::
            workerThreads[k] == (var was := old(workerThreads)[k];
                                 if k < i && was.id == id then was.(ended := true) else was)
      {
        if workerThreads[i].id == id {
          workerThreads := workerThreads[i := workerThreads[i].(ended := true)];
        }
        i := i + 1;
      }
      assert workerThreads == AfterEnd(old(workerThreads), id);
    }

    /** The first half of `builtin262AgentBroadcast`. */
    method PostMessage(message: Message)
      requires Valid()
      modifies this`workerThreads
      ensures Valid() && workerThreads == AfterPost(old(workerThreads), message)
      ensures |workerThreads| == |old(workerThreads)|
      ensures forall k | 0 <= k < |workerThreads| ::
          var was := old(workerThreads)[k];
          workerThreads[k] == Slot(was.id, message, was.running, was.ended)
    {
      var i := 0;
      while i < |workerThreads|
        invariant 0 <= i <= |workerThreads| == |old(workerThreads)|
        invariant forall k | 0 <= k < |workerThreads| ::
            workerThreads[k] == (var was := old(workerThreads)[k]; if k < i then was.(message := message) else was)
      {
        workerThreads := workerThreads[i := workerThreads[i].(message := message)];
        i := i + 1;
      }
      assert workerThreads == AfterPost(old(workerThreads), message);
    }

    /** One round of the loop in which `builtin262AgentBroadcast` waits. */
    method ThereIsNoMessage() returns (thereIsNoMessage: bool)
      ensures thereIsNoMessage <==> NoMessages(workerThreads)
    {
      thereIsNoMessage := true;
      var i := 0;
      while i < |workerThreads|
        invariant 0 <= i <= |workerThreads| && thereIsNoMessage
        invariant forall k | 0 <= k < i :: workerThreads[k].message == ""
      {
        if |workerThreads[i].message| != 0 {
          thereIsNoMessage := false;
          break;
        }
        i := i + 1;
      }
    }

    /** One round of the loop in which `entry` waits before it joins. */
    method EveryThreadIsEnded() returns (everyThreadIsEnded: bool)
      ensures everyThreadIsEnded <==> AllEnded(workerThreads)
    {
      everyThreadIsEnded := true;
      var i := 0;
      while i < |workerThreads|
        invariant 0 <= i <= |workerThreads| && everyThreadIsEnded
        invariant forall k | 0 <= k < i :: workerThreads[k].ended
      {
        if !workerThreads[i].ended {
          everyThreadIsEnded := false;
          break;
        }
        i := i + 1;
      }
    }

    /** `builtin262AgentReport`. */
    method Report(message: Message)
      modifies this`messagesFromWorkers
      ensures messagesFromWorkers == old(messagesFromWorkers) + [message]
    {
      messagesFromWorkers := messagesFromWorkers + [message];
    }

    /** `builtin262AgentGetReport`: null when there is no report. */
    method GetReport() returns (found: bool, message: Message)
      modifies this`messagesFromWorkers
      ensures found <==> old(messagesFromWorkers) != []
      ensures found ==> [message] + messagesFromWorkers == old(messagesFromWorkers)
      ensures !found ==> messagesFromWorkers == []
    {
      if |messagesFromWorkers| != 0 {
        found, message := true, messagesFromWorkers[0];
        messagesFromWorkers := messagesFromWorkers[1..];
      } else {
        found, message := false, "";
      }
    }
  }
}
