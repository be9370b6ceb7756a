/** The worker of the current revision: a FIFO queue of tasks, a counter of
    tentatively accepted tasks not yet queued, and a busy flag, all behind one
    lock, plus the loop that takes tasks off the queue one at a time.

    Each method body stands for one critical section; the loop is modelled as
    a sequence of iterations, each told whether the cancellation token has
    fired and what the external steps answer for the task it handles. */
module Worker {
  import opened Base
  import opened Tasks
  import Pipeline

  /** The admission state: queued tasks, reservations, and whether a task is
      in flight. */
  datatype State = State(queue: seq<Task>, tentative: nat, busy: bool)

  /** `queue.len() + tentative + usize::from(is_busy)`. */
  function Size(s: State): nat {
    |s.queue| + s.tentative + (if s.busy then 1 else 0)
  }

  /** The state of a new worker: nothing queued, reserved or in flight. */
  const Fresh: State := State([], 0, false)

  /** `fetch_add_queue_size(val)`: raise the reservation counter by `val`. */
  function Reserve(s: State, val: nat): (r: State)
    ensures Size(r) == Size(s) + val
    ensures r.queue == s.queue && r.busy == s.busy
  {
    s.(tentative := s.tentative + val)
  }

  /** `push`: trade one reservation for a task at the back of the queue. The
      source decrements a `usize`, so a reservation must exist. */
  function Enqueue(s: State, t: Task): (r: State)
    requires s.tentative >= 1
    ensures Size(r) == Size(s)
    ensures r.queue == s.queue + [t] && r.tentative + 1 == s.tentative && r.busy == s.busy
  {
    State(s.queue + [t], s.tentative - 1, s.busy)
  }

  /** Taking the front task and marking the worker busy, as one step. */
  function Begin(s: State): (r: State)
    requires s.queue != [] && !s.busy
    ensures Size(r) == Size(s)
    ensures r.busy && r.queue == s.queue[1..] && r.tentative == s.tentative
  {
    State(s.queue[1..], s.tentative, true)
  }

  /** The task in flight is done. */
  function Finish(s: State): (r: State)
    requires s.busy
    ensures Size(r) + 1 == Size(s)
    ensures !r.busy && r.queue == s.queue && r.tentative == s.tentative
  {
    s.(busy := false)
  }

  /** Admitting the given tasks one after another, each with a reservation
      followed by its push. */
  function AdmitAll(s: State, ts: seq<Task>): State
    decreases |ts|
  {
    if ts == [] then s else AdmitAll(Enqueue(Reserve(s, 1), ts[0]), ts[1..])
  }

  /** Every admitted task is counted exactly once: after N reserve-then-push
      admissions the size has grown by N and the tasks wait in arrival order. */
  lemma {:induction false} AdmissionsCountOnce(s: State, ts: seq<Task>)
    ensures Size(AdmitAll(s, ts)) == Size(s) + |ts|
    ensures AdmitAll(s, ts) == State(s.queue + ts, s.tentative, s.busy)
    decreases |ts|
  {
    if ts != [] {
      var s' := Enqueue(Reserve(s, 1), ts[0]);
      AdmissionsCountOnce(s', ts[1..]);
      assert s.queue + [ts[0]] + ts[1..] == s.queue + ts;
    }
  }

  /** From a fresh worker, N admissions give a queue size of exactly N. */
  lemma FreshAdmissions(ts: seq<Task>)
    ensures Size(AdmitAll(Fresh, ts)) == |ts|
  {
    AdmissionsCountOnce(Fresh, ts);
  }

  /** One loop iteration keeps the in-flight task counted: taking it off the
      queue and marking the worker busy leaves the size unchanged, and only
      its completion lowers it, by one. */
  lemma InFlightCountedOnce(s: State)
    requires s.queue != [] && !s.busy
    ensures Size(Begin(s)) == Size(s)
    ensures Size(Finish(Begin(s))) + 1 == Size(s)
  {
  }

  /** The queue size as the source computes it in a release build: the three
      terms are added as `usize`, so the sum wraps modulo 2^64. */
  function SizeAsWritten(s: State): (n: nat)
    ensures n < U64_LIMIT
    ensures Size(s) < U64_LIMIT ==> n == Size(s)
  {
    Size(s) % U64_LIMIT
  }

  /** `push` as the source runs it: the `usize` decrement of the reservation
      counter wraps when no reservation was made (release build; a debug
      build panics). */
  function PushAsWritten(s: State, t: Task): (r: State)
    requires s.tentative < U64_LIMIT
    ensures r.queue == s.queue + [t] && r.busy == s.busy && r.tentative < U64_LIMIT
    ensures s.tentative >= 1 ==> r == Enqueue(s, t)
    ensures s.tentative == 0 ==> r.tentative == U64_LIMIT - 1
  {
    State(s.queue + [t], (s.tentative - 1) % U64_LIMIT, s.busy)
  }

  /** Whatever the reservation counter holds, a push as written leaves the
      reported (wrapped) size where it was: a task pushed without a
      reservation is never counted. */
  lemma PushAsWrittenKeepsReportedSize(s: State, t: Task)
    requires s.tentative < U64_LIMIT
    ensures SizeAsWritten(PushAsWritten(s, t)) == SizeAsWritten(s)
  {
  }

  /** Pushing the given tasks one after another, none of them reserved. */
  function PushAllAsWritten(s: State, ts: seq<Task>): State
    requires s.tentative < U64_LIMIT
    decreases |ts|
  {
    if ts == [] then s else PushAllAsWritten(PushAsWritten(s, ts[0]), ts[1..])
  }

  /** Any number of unreserved pushes queue the tasks in order but leave the
      reported size unchanged. */
  lemma {:induction false} UnreservedPushesInvisible(s: State, ts: seq<Task>)
    requires s.tentative < U64_LIMIT
    ensures PushAllAsWritten(s, ts).queue == s.queue + ts
    ensures SizeAsWritten(PushAllAsWritten(s, ts)) == SizeAsWritten(s)
    decreases |ts|
  {
    if ts != [] {
      var s' := PushAsWritten(s, ts[0]);
      PushAsWrittenKeepsReportedSize(s, ts[0]);
      UnreservedPushesInvisible(s', ts[1..]);
      assert s.queue + [ts[0]] + ts[1..] == s.queue + ts;
    }
  }

  /** The command layer's sequence on a fresh worker (read the size, push
      without a reservation): the counter wraps to `usize::MAX`; while the
      first task is queued or in flight the size reads 0, so the next user is
      told the queue is empty too; once it is done the size reads 2^64 - 1. */
  lemma UnreservedPushUnderflows(t: Task)
    ensures SizeAsWritten(Fresh) == 0
    ensures PushAsWritten(Fresh, t).tentative == U64_LIMIT - 1
    ensures SizeAsWritten(PushAsWritten(Fresh, t)) == 0
    ensures SizeAsWritten(Begin(PushAsWritten(Fresh, t))) == 0
    ensures SizeAsWritten(Finish(Begin(PushAsWritten(Fresh, t)))) == U64_LIMIT - 1
  {
  }

  /** The source's loop iteration as two separate steps: `pop` returns without
      the state lock, and only afterwards is `is_busy` set. */
  function Popped(s: State): (r: State)
    requires s.queue != [] && !s.busy
    ensures Size(r) + 1 == Size(s)
  {
    s.(queue := s.queue[1..])
  }

  /** Between the two steps a queue-size query misses the task just taken:
      the size a caller sees drops by one while the task is still in flight. */
  lemma PopWindowUndercounts(s: State)
    requires s.queue != [] && !s.busy
    ensures Size(Popped(s)) < Size(Begin(s))
    ensures Begin(s) == Popped(s).(busy := true)
  {
  }

  /** `handle_task`: run the pipeline and send its result, once, on the task's
      channel. A receiver that has gone away only makes the send fail, which
      is logged. */
  datatype Delivery = Delivery(channel: nat, result: TaskResult, received: bool)

  function HandleTask(task: Task, io: Pipeline.TaskIo, receiverAlive: bool, maxMb: nat): (d: Delivery)
    ensures d.channel == task.replyTo && d.received == receiverAlive
    ensures d.result == Pipeline.HandleTaskInternal(task, io, maxMb)
  {
    Delivery(task.replyTo, Pipeline.HandleTaskInternal(task, io, maxMb), receiverAlive)
  }

  /** What one iteration of the loop observes: whether the token is cancelled,
      the answers of the external steps for the task it takes, and whether the
      task's receiver is still waiting. */
  datatype Tick = Tick(cancelled: bool, io: Pipeline.TaskIo, receiverAlive: bool)

  datatype StepOutcome = Cancelled | Waiting | Handled(delivery: Delivery)

  datatype StopReason = StoppedByCancel | QueueDrained | TicksExhausted

  class Worker {
    var queue: seq<Task>
    var tentative: nat
    var isBusy: bool

    function Snapshot(): State
      reads this
    {
      State(queue, tentative, isBusy)
    }

    /** `Worker::new` */
    constructor ()
      ensures Snapshot() == Fresh
    {
      queue, tentative, isBusy := [], 0, false;
    }

    /** `fetch_add_queue_size`: the size before, then `val` more reservations. */
    method FetchAddQueueSize(val: nat) returns (qsize: nat)
      modifies this
      ensures qsize == Size(old(Snapshot()))
      ensures Snapshot() == Reserve(old(Snapshot()), val)
    {
      qsize := |queue| + tentative + (if isBusy then 1 else 0);
      tentative := tentative + val;
    }

    /** `queue_size`: the current size; the state is left as it was. */
    method QueueSize() returns (qsize: nat)
      modifies this
      ensures qsize == Size(Snapshot())
      ensures Snapshot() == old(Snapshot())
    {
      qsize := FetchAddQueueSize(0);
    }

    /** `tentative_enqueue`: the size before, and one slot reserved. */
    method TentativeEnqueue() returns (qsize: nat)
      modifies this
      ensures qsize == Size(old(Snapshot()))
      ensures Snapshot() == Reserve(old(Snapshot()), 1)
      ensures Size(Snapshot()) == qsize + 1
    {
      qsize := FetchAddQueueSize(1);
    }

    /** `push`: the task joins the back of the queue in place of a reservation. */
    method Push(item: Task)
      requires tentative >= 1
      modifies this
      ensures Snapshot() == Enqueue(old(Snapshot()), item)
      ensures Size(Snapshot()) == Size(old(Snapshot()))
    {
      tentative := tentative - 1;
      queue := queue + [item];
    }

    /** One iteration of the `start` loop. The biased `select!` looks at the
        token first; otherwise the front task is taken, the worker is busy
        while it is handled, and idle again once its result is sent. An empty
        queue leaves the iteration waiting for a push. */
    method Step(tick: Tick, maxMb: nat) returns (outcome: StepOutcome)
      requires !isBusy
      modifies this
      ensures !isBusy && tentative == old(tentative)
      ensures tick.cancelled ==> outcome == Cancelled && queue == old(queue)
      ensures !tick.cancelled && old(queue) == [] ==> outcome == Waiting && queue == old(queue)
      ensures !tick.cancelled && old(queue) != [] ==>
        outcome == Handled(HandleTask(old(queue)[0], tick.io, tick.receiverAlive, maxMb))
        && Snapshot() == Finish(Begin(old(Snapshot())))
    {
      if tick.cancelled {
        return Cancelled;
      }
      if queue == [] {
        return Waiting;
      }
      var task := queue[0];
      queue := queue[1..];
      isBusy := true;
      assert Snapshot() == Begin(old(Snapshot()));
      var delivery := HandleTask(task, tick.io, tick.receiverAlive, maxMb);
      isBusy := false;
      outcome := Handled(delivery);
    }

    /** The `start` loop over a run of iterations: tasks are handled strictly in
        queue order, one result per task, until the token is seen cancelled,
        the queue is empty, or the iterations run out. Tasks not reached stay
        queued. */
    method Run(ticks: seq<Tick>, maxMb: nat) returns (deliveries: seq<Delivery>, stop: StopReason)
      requires !isBusy
      modifies this
      ensures !isBusy && tentative == old(tentative)
      ensures |deliveries| <= |old(queue)| && |deliveries| <= |ticks|
      ensures queue == old(queue)[|deliveries|..]
      ensures forall j :: 0 <= j < |deliveries| ==>
        !ticks[j].cancelled && deliveries[j] == HandleTask(old(queue)[j], ticks[j].io, ticks[j].receiverAlive, maxMb)
      ensures stop == StoppedByCancel ==> |deliveries| < |ticks| && ticks[|deliveries|].cancelled
      ensures stop == QueueDrained ==> |deliveries| < |ticks| && queue == []
      ensures stop == TicksExhausted ==> |deliveries| == |ticks|
    {
      deliveries := [];
      var i := 0;
      while i < |ticks|
        invariant i == |deliveries| && i <= |old(queue)| && i <= |ticks|
        invariant !isBusy && tentative == old(tentative)
        invariant queue == old(queue)[i..]
        invariant forall j :: 0 <= j < i ==>
          !ticks[j].cancelled && deliveries[j] == HandleTask(old(queue)[j], ticks[j].io, ticks[j].receiverAlive, maxMb)
      {
        var outcome := Step(ticks[i], maxMb);
        match outcome
        case Cancelled =>
          return deliveries, StoppedByCancel;
        case Waiting =>
          return deliveries, QueueDrained;
        case Handled(d) =>
          deliveries := deliveries + [d];
          i := i + 1;
      }
      stop := TicksExhausted;
    }
  }
}
