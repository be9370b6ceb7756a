/** The task manager of the current revision: the public face of the worker,
    owning it together with a cancellation token whose child is handed to the
    worker's loop. */
module Manager {
  import opened Base
  import opened Tasks
  import W = Worker
  import Pipeline
  import Commands

  class TaskManager {
    const worker: W.Worker
    /** Whether the manager's token has been cancelled; the child token the
        loop watches is cancelled exactly when its parent is. */
    var cancelled: bool
    /** Whether the worker's loop has been spawned. */
    var started: bool

    /** `TaskManagerInner::default`: a fresh worker and an uncancelled token. */
    constructor ()
      ensures fresh(worker) && worker.Snapshot() == W.Fresh
      ensures !cancelled && !started
    {
      worker := new W.Worker();
      cancelled, started := false, false;
    }

    /** The state of the child token given to the loop by `start`. */
    function LoopTokenCancelled(): bool
      reads this
    {
      cancelled
    }

    /** `start`: spawn the loop with a child of the manager's token. */
    method Start()
      modifies this
      ensures started && cancelled == old(cancelled)
    {
      started := true;
    }

    /** `stop`: cancel the token, and with it the loop's child token. */
    method Stop()
      modifies this
      ensures cancelled && LoopTokenCancelled() && started == old(started)
    {
      cancelled := true;
    }

    /** `get_queue_size` */
    method GetQueueSize() returns (qsize: nat)
      modifies worker
      ensures qsize == W.Size(worker.Snapshot())
      ensures worker.Snapshot() == old(worker.Snapshot())
    {
      qsize := worker.QueueSize();
    }

    /** `tentative_enqueue`: the size before, and one slot reserved. */
    method TentativeEnqueue() returns (qsize: nat)
      modifies worker
      ensures qsize == W.Size(old(worker.Snapshot()))
      ensures worker.Snapshot() == W.Reserve(old(worker.Snapshot()), 1)
    {
      qsize := worker.TentativeEnqueue();
    }

    /** `enqueue_task`: the task takes the place of a reservation. */
    method EnqueueTask(task: Task)
      requires worker.tentative >= 1
      modifies worker
      ensures worker.Snapshot() == W.Enqueue(old(worker.Snapshot()), task)
      ensures W.Size(worker.Snapshot()) == W.Size(old(worker.Snapshot()))
    {
      worker.Push(task);
    }

    /** Admission as the reservation scheme intends it: reserve a slot, tell
        the caller its position, then enqueue. The position is the size seen
        before, and the task adds exactly one to the size. */
    method Admit(task: Task) returns (position: nat)
      modifies worker
      ensures position == W.Size(old(worker.Snapshot()))
      ensures W.Size(worker.Snapshot()) == position + 1
      ensures worker.Snapshot() == W.AdmitAll(old(worker.Snapshot()), [task])
    {
      position := TentativeEnqueue();
      EnqueueTask(task);
    }

    /** One iteration of the started loop, watching the child token: once
        `stop` has run, the loop ends without taking a task; an empty queue
        leaves it waiting; otherwise the front task is handled and the worker
        is idle again, with the queue size one lower. */
    method Tick(io: Pipeline.TaskIo, receiverAlive: bool, maxMb: nat) returns (outcome: W.StepOutcome)
      requires started && !worker.isBusy
      modifies worker
      ensures !worker.isBusy && worker.tentative == old(worker.tentative)
      ensures LoopTokenCancelled() ==> outcome == W.Cancelled && worker.Snapshot() == old(worker.Snapshot())
      ensures !LoopTokenCancelled() && old(worker.queue) == [] ==>
        outcome == W.Waiting && worker.Snapshot() == old(worker.Snapshot())
      ensures !LoopTokenCancelled() && old(worker.queue) != [] ==>
        outcome == W.Handled(W.HandleTask(old(worker.queue)[0], io, receiverAlive, maxMb))
        && worker.Snapshot() == W.Finish(W.Begin(old(worker.Snapshot())))
    {
      outcome := worker.Step(W.Tick(LoopTokenCancelled(), io, receiverAlive), maxMb);
    }
  }

  /** A request arriving at a fresh manager is told it is first in line, and
      a second admission sees the first. */
  method FreshManagerPositions(a: Task, b: Task) returns (first: nat, second: nat)
    ensures first == 0 && second == 1
  {
    var manager := new TaskManager();
    first := manager.Admit(a);
    second := manager.Admit(b);
  }

  /** The download path as its caller runs it: the position the user is told
      is read with `get_queue_size`, and the task is then enqueued without a
      reservation (release build). The next request is told the same
      position, whatever the state. */
  function RequestAsWritten(s: W.State, t: Task): (r: (nat, W.State))
    requires s.tentative < U64_LIMIT
    ensures r.0 == W.SizeAsWritten(s)
    ensures r.1.queue == s.queue + [t] && r.1.tentative < U64_LIMIT
    ensures W.SizeAsWritten(r.1) == r.0
  {
    W.PushAsWrittenKeepsReportedSize(s, t);
    (W.SizeAsWritten(s), W.PushAsWritten(s, t))
  }

  /** Two requests reaching a fresh bot along that path are both told the
      queue is empty, and both tasks are queued; reserving first, as
      `Admit` does, tells the second one position 1 instead. */
  lemma FreshRequestsAsWritten(a: Task, b: Task)
    ensures var (first, s1) := RequestAsWritten(W.Fresh, a);
      var (second, s2) := RequestAsWritten(s1, b);
      first == 0 && second == 0 && s2.queue == [a, b]
      && Commands.AcceptMessage(second) == Commands.AcceptMessage(first) == Commands.EMPTY_QUEUE_TEXT
  {
  }
}
